/** The byte streams that content hashing feeds to the hash function.

    A value is a tree of the shapes the encoder is defined on. A `Vec`, a slice and a `String` are `VSeq`; an
    ordered map is the `VSeq` of its `VPair`s in key order and a set the `VSeq` of its elements in order, because
    that is the iteration the encoder performs; an `Option` and a tagged enum are `VTag`; a struct is the `VPair`
    of its first field and the remaining fields, ended by `VUnit`. */
module ContentHash {
  import opened Basics
  import opened LittleEndian
  import opened Ordering

  datatype Val =
    | VUnit
    | VBool(b: bool)
    | VU8(u: byte)
    | VI32(i: int)
    | VI64(l: int)
    | VSeq(xs: seq<Val>)
    | VPair(fst: Val, snd: Val)
    | VTag(tag: byte, arg: Val)

  datatype Ty =
    | TUnit
    | TBool
    | TU8
    | TI32
    | TI64
    | TSeq(elem: Ty)
    | TPair(left: Ty, right: Ty)
    | TTag(tags: seq<byte>, args: seq<Ty>)
    | TMap(key: Ty, value: Ty)
    | TSet(member: Ty)

  function TOption(t: Ty): Ty {
    TTag([0, 1], [TUnit, t])
  }

  /** The position of a tag among the alternatives of an enum. */
  function TagIndex(tags: seq<byte>, tag: byte): (k: nat)
    ensures k <= |tags|
    ensures k < |tags| ==> tags[k] == tag
  {
    if tags == [] then 0 else if tags[0] == tag then 0 else 1 + TagIndex(tags[1..], tag)
  }

  /** v is a value of type t. Lengths fit the 64-bit length prefix; map keys and set elements are strictly
      ascending. */
  ghost predicate HasType(t: Ty, v: Val)
    decreases v, t
  {
    match t
    case TUnit => v.VUnit?
    case TBool => v.VBool?
    case TU8 => v.VU8?
    case TI32 => v.VI32? && -TWO_32 / 2 <= v.i < TWO_32 / 2
    case TI64 => v.VI64? && -TWO_64 / 2 <= v.l < TWO_64 / 2
    case TSeq(e) => v.VSeq? && |v.xs| < TWO_64 && forall x :: x in v.xs ==> HasType(e, x)
    case TPair(a, b) => v.VPair? && HasType(a, v.fst) && HasType(b, v.snd)
    case TTag(tags, args) =>
      v.VTag? && (var k := TagIndex(tags, v.tag); k < |tags| && k < |args| && HasType(args[k], v.arg))
    case TMap(k, w) =>
      && v.VSeq? && |v.xs| < TWO_64
      && (forall x :: x in v.xs ==> x.VPair? && HasType(k, x.fst) && HasType(w, x.snd))
      && (forall i, j :: 0 <= i < j < |v.xs| ==> Lt(v.xs[i].fst, v.xs[j].fst))
    case TSet(e) =>
      && v.VSeq? && |v.xs| < TWO_64
      && (forall x :: x in v.xs ==> HasType(e, x))
      && (forall i, j :: 0 <= i < j < |v.xs| ==> Lt(v.xs[i], v.xs[j]))
  }

  // ---------------------------------------------------------------- the stream of a value

  function Encode(v: Val): Bytes
    decreases v, 0
  {
    match v
    case VUnit => []
    case VBool(b) => [if b then 1 else 0]
    case VU8(u) => [u]
    case VI32(i) => LE(i % TWO_32, 4)
    case VI64(l) => LE(l % TWO_64, 8)
    case VSeq(xs) => LE(|xs|, 8) + EncodeAll(xs)
    case VPair(a, b) => Encode(a) + Encode(b)
    case VTag(tag, x) => [tag] + Encode(x)
  }

  function EncodeAll(xs: seq<Val>): Bytes
    decreases xs, 0
  {
    if xs == [] then [] else Encode(xs[0]) + EncodeAll(xs[1..])
  }

  // ---------------------------------------------------------------- reading it back

  type Parsed<T> = Option<(T, Bytes)>

  function Decode(t: Ty, bytes: Bytes): Parsed<Val>
    decreases t, 1, 0
  {
    match t
    case TUnit => Some((VUnit, bytes))
    case TBool => if bytes == [] then None else Some((VBool(bytes[0] == 1), bytes[1..]))
    case TU8 => if bytes == [] then None else Some((VU8(bytes[0]), bytes[1..]))
    case TI32 =>
      if |bytes| < 4 then None else Some((VI32(ToSigned(FromLE(bytes[..4]), TWO_32)), bytes[4..]))
    case TI64 =>
      if |bytes| < 8 then None else Some((VI64(ToSigned(FromLE(bytes[..8]), TWO_64)), bytes[8..]))
    case TSeq(e) => if |bytes| < 8 then None else AsSeq(DecodeAll(e, FromLE(bytes[..8]), bytes[8..]))
    case TSet(e) => if |bytes| < 8 then None else AsSeq(DecodeAll(e, FromLE(bytes[..8]), bytes[8..]))
    case TMap(_, _) => if |bytes| < 8 then None else AsSeq(DecodeEntries(t, FromLE(bytes[..8]), bytes[8..]))
    case TPair(a, b) =>
      (match Decode(a, bytes)
       case None => None
       case Some((x, rest)) =>
         match Decode(b, rest)
         case None => None
         case Some((y, rest')) => Some((VPair(x, y), rest')))
    case TTag(tags, args) =>
      if bytes == [] then None
      else
        var k := TagIndex(tags, bytes[0]);
        if k >= |tags| || k >= |args| then None
        else
          match Decode(args[k], bytes[1..])
          case None => None
          case Some((x, rest)) => Some((VTag(bytes[0], x), rest))
  }

  function AsSeq(p: Parsed<seq<Val>>): Parsed<Val> {
    match p
    case None => None
    case Some((xs, rest)) => Some((VSeq(xs), rest))
  }

  function DecodeAll(e: Ty, n: nat, bytes: Bytes): Parsed<seq<Val>>
    decreases e, 2, n
  {
    if n == 0 then Some(([], bytes))
    else
      match Decode(e, bytes)
      case None => None
      case Some((x, rest)) =>
        match DecodeAll(e, n - 1, rest)
        case None => None
        case Some((xs, rest')) => Some(([x] + xs, rest'))
  }

  function DecodeEntries(t: Ty, n: nat, bytes: Bytes): Parsed<seq<Val>>
    requires t.TMap?
    decreases t, 0, n
  {
    if n == 0 then Some(([], bytes))
    else
      match Decode(t.key, bytes)
      case None => None
      case Some((x, rest)) =>
        match Decode(t.value, rest)
        case None => None
        case Some((y, rest')) =>
          match DecodeEntries(t, n - 1, rest')
          case None => None
          case Some((xs, rest'')) => Some(([VPair(x, y)] + xs, rest''))
  }

  lemma RoundTripScalar(t: Ty, v: Val, rest: Bytes)
    requires HasType(t, v) && (t.TUnit? || t.TBool? || t.TU8? || t.TI32? || t.TI64?)
    ensures Decode(t, Encode(v) + rest) == Some((v, rest))
  {
    match t
    case TUnit => assert Encode(v) + rest == rest;
    case TBool => assert (Encode(v) + rest)[1..] == rest;
    case TU8 => assert (Encode(v) + rest)[1..] == rest;
    case TI32 =>
      FixedWidth(v.i % TWO_32, 4, rest);
      SignedI32(v.i);
    case TI64 =>
      FixedWidth(v.l % TWO_64, 8, rest);
      SignedI64(v.l);
  }

  lemma SignedI32(i: int)
    requires -TWO_32 / 2 <= i < TWO_32 / 2
    ensures 0 <= i % TWO_32 && ToSigned(i % TWO_32, TWO_32) == i
  {
    assert i % TWO_32 == if i < 0 then i + TWO_32 else i;
  }

  lemma SignedI64(i: int)
    requires -TWO_64 / 2 <= i < TWO_64 / 2
    ensures 0 <= i % TWO_64 && ToSigned(i % TWO_64, TWO_64) == i
  {
    assert i % TWO_64 == if i < 0 then i + TWO_64 else i;
  }

  /** The decoder inverts the encoder, whatever bytes follow. */
  lemma {:induction false} RoundTrip(t: Ty, v: Val, rest: Bytes)
    requires HasType(t, v)
    ensures Decode(t, Encode(v) + rest) == Some((v, rest))
    decreases v, 1
  {
    match t
    case TPair(_, _) => RoundTripPair(t, v, rest);
    case TTag(_, _) => RoundTripTag(t, v, rest);
    case TSeq(_) => RoundTripContainer(t, v, rest);
    case TSet(_) => RoundTripContainer(t, v, rest);
    case TMap(_, _) => RoundTripContainer(t, v, rest);
    case _ => RoundTripScalar(t, v, rest);
  }

  lemma {:induction false} RoundTripPair(t: Ty, v: Val, rest: Bytes)
    requires HasType(t, v) && t.TPair?
    ensures Decode(t, Encode(v) + rest) == Some((v, rest))
    decreases v, 0
  {
    assert Encode(v) + rest == Encode(v.fst) + (Encode(v.snd) + rest);
    RoundTrip(t.left, v.fst, Encode(v.snd) + rest);
    RoundTrip(t.right, v.snd, rest);
  }

  lemma {:induction false} RoundTripTag(t: Ty, v: Val, rest: Bytes)
    requires HasType(t, v) && t.TTag?
    ensures Decode(t, Encode(v) + rest) == Some((v, rest))
    decreases v, 0
  {
    assert (Encode(v) + rest)[0] == v.tag && (Encode(v) + rest)[1..] == Encode(v.arg) + rest;
    RoundTrip(t.args[TagIndex(t.tags, v.tag)], v.arg, rest);
  }

  lemma {:induction false} RoundTripContainer(t: Ty, v: Val, rest: Bytes)
    requires HasType(t, v) && (t.TSeq? || t.TSet? || t.TMap?)
    ensures Decode(t, Encode(v) + rest) == Some((v, rest))
    decreases v, 0
  {
    LengthPrefix(v, rest);
    match t
    case TSeq(e) => RoundTripAll(e, v.xs, rest);
    case TSet(e) => RoundTripAll(e, v.xs, rest);
    case TMap(_, _) => RoundTripEntries(t, v.xs, rest);
  }

  lemma {:induction false} RoundTripAll(e: Ty, xs: seq<Val>, rest: Bytes)
    requires forall x :: x in xs ==> HasType(e, x)
    ensures DecodeAll(e, |xs|, EncodeAll(xs) + rest) == Some((xs, rest))
    decreases xs, 0
  {
    if xs == [] {
      assert EncodeAll(xs) + rest == rest;
    } else {
      assert EncodeAll(xs) + rest == Encode(xs[0]) + (EncodeAll(xs[1..]) + rest);
      RoundTrip(e, xs[0], EncodeAll(xs[1..]) + rest);
      RoundTripAll(e, xs[1..], rest);
      assert xs == [xs[0]] + xs[1..];
    }
  }

  lemma {:induction false} RoundTripEntries(t: Ty, xs: seq<Val>, rest: Bytes)
    requires t.TMap?
    requires forall x :: x in xs ==> x.VPair? && HasType(t.key, x.fst) && HasType(t.value, x.snd)
    ensures DecodeEntries(t, |xs|, EncodeAll(xs) + rest) == Some((xs, rest))
    decreases xs, 0
  {
    if xs == [] {
      assert EncodeAll(xs) + rest == rest;
    } else {
      var x, tail := xs[0], EncodeAll(xs[1..]) + rest;
      assert EncodeAll(xs) + rest == Encode(x) + tail;
      RoundTrip(TPair(t.key, t.value), x, tail);
      RoundTripEntries(t, xs[1..], rest);
      assert xs == [x] + xs[1..];
    }
  }

  lemma FixedWidth(n: nat, width: nat, rest: Bytes)
    requires width == 4 || width == 8
    requires n < (if width == 4 then TWO_32 else TWO_64)
    ensures FromLE((LE(n, width) + rest)[..width]) == n
    ensures (LE(n, width) + rest)[width..] == rest
  {
    assert (LE(n, width) + rest)[..width] == LE(n, width);
    WidthValues();
    FromLEInverts(n, width);
  }

  lemma LengthPrefix(v: Val, rest: Bytes)
    requires v.VSeq? && |v.xs| < TWO_64
    ensures var stream := Encode(v) + rest;
            && |stream| >= 8
            && FromLE(stream[..8]) == |v.xs|
            && stream[8..] == EncodeAll(v.xs) + rest
  {
    assert Encode(v) + rest == LE(|v.xs|, 8) + (EncodeAll(v.xs) + rest);
    FixedWidth(|v.xs|, 8, EncodeAll(v.xs) + rest);
  }

  /** Streams are uniquely decodable at every type: no stream continued by any bytes is also the stream of
      another value continued by any bytes. */
  lemma UniquelyDecodable(t: Ty, x: Val, y: Val, r: Bytes, s: Bytes)
    requires HasType(t, x) && HasType(t, y)
    requires Encode(x) + r == Encode(y) + s
    ensures x == y && r == s
  {
    RoundTrip(t, x, r);
    RoundTrip(t, y, s);
  }

  /** An `Option` is hashed as a tag byte and what it holds. */
  function OptionVal(o: Option<Val>): Val {
    match o
    case None => VTag(0, VUnit)
    case Some(v) => VTag(1, v)
  }

  /** Optional values are told apart by their streams, even with continuations: the tag keeps a missing value from
      looking like a present one. */
  lemma OptionsAreDecodable(t: Ty, a: Option<Val>, b: Option<Val>, r: Bytes, s: Bytes)
    requires (a.Some? ==> HasType(t, a.value)) && (b.Some? ==> HasType(t, b.value))
    requires Encode(OptionVal(a)) + r == Encode(OptionVal(b)) + s
    ensures a == b && r == s
  {
    OptionIsTyped(t, a);
    OptionIsTyped(t, b);
    UniquelyDecodable(TOption(t), OptionVal(a), OptionVal(b), r, s);
  }

  lemma OptionIsTyped(t: Ty, o: Option<Val>)
    requires o.Some? ==> HasType(t, o.value)
    ensures HasType(TOption(t), OptionVal(o))
  {
    var tags: seq<byte> := [0, 1];
    assert TagIndex(tags, 0) == 0;
    assert tags[1..] == [1] && TagIndex([1], 1) == 0;
    assert TagIndex(tags, 1) == 1;
  }

  // ---------------------------------------------------------------- the order of keys

  /** The derived order of values: numeric, `false` first, sequences and structs lexicographic, enums by tag. */
  predicate Lt(a: Val, b: Val)
    decreases a, 1
  {
    match (a, b)
    case (VUnit, VUnit) => false
    case (VBool(p), VBool(q)) => !p && q
    case (VU8(p), VU8(q)) => p < q
    case (VI32(p), VI32(q)) => p < q
    case (VI64(p), VI64(q)) => p < q
    case (VSeq(p), VSeq(q)) => LtAll(p, q)
    case (VPair(p, p'), VPair(q, q')) => Lt(p, q) || (p == q && Lt(p', q'))
    case (VTag(p, p'), VTag(q, q')) => p < q || (p == q && Lt(p', q'))
    case _ => Shape(a) < Shape(b)
  }

  predicate LtAll(a: seq<Val>, b: seq<Val>)
    decreases a, 0
  {
    if b == [] then false
    else if a == [] then true
    else Lt(a[0], b[0]) || (a[0] == b[0] && LtAll(a[1..], b[1..]))
  }

  /** Values of different shapes never share a type; ordering the shapes makes the order total. */
  function Shape(v: Val): nat {
    match v
    case VUnit => 0 case VBool(_) => 1 case VU8(_) => 2 case VI32(_) => 3
    case VI64(_) => 4 case VSeq(_) => 5 case VPair(_, _) => 6 case VTag(_, _) => 7
  }

  predicate Le(a: Val, b: Val) {
    a == b || Lt(a, b)
  }

  lemma {:induction false} LtIrreflexive(a: Val)
    ensures !Lt(a, a)
    decreases a, 1
  {
    match a
    case VSeq(p) => LtAllIrreflexive(p);
    case VPair(p, q) => LtIrreflexive(p); LtIrreflexive(q);
    case VTag(_, p) => LtIrreflexive(p);
    case _ =>
  }

  lemma {:induction false} LtAllIrreflexive(a: seq<Val>)
    ensures !LtAll(a, a)
    decreases a, 0
  {
    if a != [] {
      LtIrreflexive(a[0]);
      LtAllIrreflexive(a[1..]);
    }
  }

  lemma {:induction false} LtTotal(a: Val, b: Val)
    ensures a == b || Lt(a, b) || Lt(b, a)
    decreases a, 1
  {
    match (a, b)
    case (VSeq(p), VSeq(q)) => LtAllTotal(p, q);
    case (VPair(p, p'), VPair(q, q')) => LtTotal(p, q); LtTotal(p', q');
    case (VTag(p, p'), VTag(q, q')) => LtTotal(p', q');
    case _ =>
  }

  lemma {:induction false} LtAllTotal(a: seq<Val>, b: seq<Val>)
    ensures a == b || LtAll(a, b) || LtAll(b, a)
    decreases a, 0
  {
    if a != [] && b != [] {
      LtTotal(a[0], b[0]);
      LtAllTotal(a[1..], b[1..]);
      assert a == [a[0]] + a[1..] && b == [b[0]] + b[1..];
    }
  }

  lemma {:induction false} LtTransitive(a: Val, b: Val, c: Val)
    requires Lt(a, b) && Lt(b, c)
    ensures Lt(a, c)
    decreases a, 1
  {
    match (a, b, c)
    case (VSeq(p), VSeq(q), VSeq(r)) => LtAllTransitive(p, q, r);
    case (VPair(p, p'), VPair(q, q'), VPair(r, r')) =>
      if Lt(p, q) && Lt(q, r) { LtTransitive(p, q, r); }
      if Lt(p', q') && Lt(q', r') { LtTransitive(p', q', r'); }
    case (VTag(_, p), VTag(_, q), VTag(_, r)) =>
      if Lt(p, q) && Lt(q, r) { LtTransitive(p, q, r); }
    case _ =>
  }

  lemma {:induction false} LtAllTransitive(a: seq<Val>, b: seq<Val>, c: seq<Val>)
    requires LtAll(a, b) && LtAll(b, c)
    ensures LtAll(a, c)
    decreases a, 0
  {
    if a != [] {
      if Lt(a[0], b[0]) && Lt(b[0], c[0]) { LtTransitive(a[0], b[0], c[0]); }
      if LtAll(a[1..], b[1..]) && LtAll(b[1..], c[1..]) { LtAllTransitive(a[1..], b[1..], c[1..]); }
    }
  }

  lemma LeIsTotalOrder()
    ensures TotalOrder(Le)
  {
    forall x: Val, y: Val ensures (Le(x, y) || Le(y, x)) && (Le(x, y) && Le(y, x) ==> x == y) {
      LtTotal(x, y);
      LtIrreflexive(x);
      if Lt(x, y) && Lt(y, x) { LtTransitive(x, y, x); }
    }
    forall x: Val, y: Val, z: Val | Le(x, y) && Le(y, z) ensures Le(x, z) {
      if Lt(x, y) && Lt(y, z) { LtTransitive(x, y, z); }
    }
  }

  // ---------------------------------------------------------------- maps and sets

  /** The elements of a set of keys in their order. */
  function InOrder(s: set<Val>): (xs: seq<Val>)
    ensures forall x :: x in xs <==> x in s
    ensures |xs| == |s|
  {
    LeIsTotalOrder();
    AscendingEnumerates(s, Le);
    Ascending(s, Le)
  }

  lemma InOrderIsSorted(s: set<Val>)
    ensures Sorted(Le, InOrder(s)) && Enumerates(InOrder(s), s)
  {
    LeIsTotalOrder();
    AscendingEnumerates(s, Le);
  }

  lemma InOrderIsUnique(xs: seq<Val>, s: set<Val>)
    requires Sorted(Le, xs) && Enumerates(xs, s)
    ensures xs == InOrder(s)
  {
    LeIsTotalOrder();
    InOrderIsSorted(s);
    SortedEnumerationIsUnique(Le, xs, InOrder(s), s);
  }

  /** The entries of a map for the given keys, in that order. */
  function Entries(m: map<Val, Val>, keys: seq<Val>): (xs: seq<Val>)
    requires forall k :: k in keys ==> k in m
    ensures |xs| == |keys|
    ensures forall i :: 0 <= i < |xs| ==> xs[i] == VPair(keys[i], m[keys[i]])
  {
    if keys == [] then [] else [VPair(keys[0], m[keys[0]])] + Entries(m, keys[1..])
  }

  /** What a `BTreeMap` with these entries hashes: its entries in key order. */
  ghost function MapVal(m: map<Val, Val>): Val {
    VSeq(Entries(m, InOrder(m.Keys)))
  }

  /** What a `BTreeSet` with these elements would hash: its elements in order. */
  ghost function SetVal(s: set<Val>): Val {
    VSeq(InOrder(s))
  }

  /** One order in which a `HashMap` may hand out its entries: each of them once, in any order. */
  ghost predicate Iterates(iteration: seq<Val>, m: map<Val, Val>) {
    && Distinct(iteration)
    && (forall p :: p in iteration ==> p.VPair? && p.fst in m && p.snd == m[p.fst])
    && (forall k :: k in m ==> VPair(k, m[k]) in iteration)
  }

  ghost predicate AreEntries(xs: seq<Val>) {
    forall p :: p in xs ==> p.VPair?
  }

  ghost predicate SortedByKey(xs: seq<Val>)
    requires AreEntries(xs)
  {
    forall i, j :: 0 <= i < j < |xs| ==> Le(xs[i].fst, xs[j].fst)
  }

  lemma {:induction false} DistinctCounts<T(!new)>(xs: seq<T>)
    ensures Distinct(xs) <==> forall x :: x in xs ==> multiset(xs)[x] == 1
  {
    if xs != [] {
      var first, tail := xs[0], xs[1..];
      assert xs == [first] + tail;
      DistinctCounts(tail);
      assert multiset(xs) == multiset{first} + multiset(tail);
      if forall x :: x in xs ==> multiset(xs)[x] == 1 {
        assert first in xs;
        assert first !in multiset(tail);
        forall x | x in tail ensures multiset(tail)[x] == 1 { assert x in xs; }
      }
      if Distinct(xs) {
        assert Distinct(tail);
        forall x | x in xs ensures multiset(xs)[x] == 1 {
          assert first !in tail;
        }
      }
    }
  }

  lemma PermutationIsDistinct<T(!new)>(xs: seq<T>, ys: seq<T>)
    requires Distinct(xs) && multiset(xs) == multiset(ys)
    ensures Distinct(ys)
  {
    DistinctCounts(xs);
    DistinctCounts(ys);
    forall y | y in ys ensures multiset(ys)[y] == 1 {
      assert y in multiset(ys);
      assert y in xs;
    }
  }

  lemma PermutationLength<T(!new)>(xs: seq<T>, ys: seq<T>)
    requires multiset(xs) == multiset(ys)
    ensures |xs| == |ys|
  {
    assert |xs| == |multiset(xs)| == |multiset(ys)| == |ys|;
  }

  lemma PermutationIterates(m: map<Val, Val>, iteration: seq<Val>, sorted: seq<Val>)
    requires Iterates(iteration, m)
    requires multiset(sorted) == multiset(iteration)
    ensures Iterates(sorted, m)
  {
    PermutationIsDistinct(iteration, sorted);
    forall p ensures p in sorted <==> p in iteration {
      assert p in sorted <==> p in multiset(sorted);
    }
  }

  /** The keys of an iteration, in the order they come. */
  function KeysOf(xs: seq<Val>): (keys: seq<Val>)
    requires AreEntries(xs)
    ensures |keys| == |xs| && forall i :: 0 <= i < |xs| ==> keys[i] == xs[i].fst
  {
    seq(|xs|, i requires 0 <= i < |xs| => xs[i].fst)
  }

  lemma KeysAreDistinct(m: map<Val, Val>, xs: seq<Val>)
    requires Iterates(xs, m)
    ensures Enumerates(KeysOf(xs), m.Keys)
  {
    var keys := KeysOf(xs);
    forall i, j | 0 <= i < j < |keys| ensures keys[i] != keys[j] {
      assert xs[i] in xs && xs[j] in xs;
    }
    forall k | k in m ensures k in keys {
      var i :| 0 <= i < |xs| && xs[i] == VPair(k, m[k]);
      assert keys[i] == k;
    }
    forall k | k in keys ensures k in m {
      var i :| 0 <= i < |keys| && keys[i] == k;
      assert xs[i] in xs;
    }
  }

  lemma KeysAreSorted(xs: seq<Val>)
    requires AreEntries(xs) && SortedByKey(xs)
    ensures Sorted(Le, KeysOf(xs))
  {
  }

  lemma IterationIsEntries(m: map<Val, Val>, xs: seq<Val>)
    requires Iterates(xs, m)
    ensures (forall k :: k in KeysOf(xs) ==> k in m) && xs == Entries(m, KeysOf(xs))
  {
    forall i | 0 <= i < |xs| ensures xs[i].fst in m && xs[i] == VPair(xs[i].fst, m[xs[i].fst]) {
      assert xs[i] in xs;
    }
  }

  lemma SortedIterationIsMapVal(m: map<Val, Val>, xs: seq<Val>)
    requires Iterates(xs, m)
    requires SortedByKey(xs)
    ensures VSeq(xs) == MapVal(m)
  {
    KeysInOrder(m, xs);
    IterationIsEntries(m, xs);
  }

  lemma KeysInOrder(m: map<Val, Val>, xs: seq<Val>)
    requires Iterates(xs, m)
    requires SortedByKey(xs)
    ensures KeysOf(xs) == InOrder(m.Keys)
  {
    KeysAreDistinct(m, xs);
    KeysAreSorted(xs);
    InOrderIsUnique(KeysOf(xs), m.Keys);
  }

  /** The stream of a `HashMap` does not depend on its iteration order, nor on how the unstable sort arranges it:
      every sorted rearrangement of every iteration is what a `BTreeMap` with the same contents hashes. */
  lemma HashMapIsCanonical(m: map<Val, Val>, iteration: seq<Val>, sorted: seq<Val>)
    requires Iterates(iteration, m)
    requires multiset(sorted) == multiset(iteration)
    requires AreEntries(sorted) && SortedByKey(sorted)
    ensures VSeq(sorted) == MapVal(m)
  {
    PermutationIterates(m, iteration, sorted);
    SortedIterationIsMapVal(m, sorted);
  }

  /** The same for a `HashSet`. */
  lemma HashSetIsCanonical(s: set<Val>, iteration: seq<Val>, sorted: seq<Val>)
    requires Enumerates(iteration, s)
    requires multiset(sorted) == multiset(iteration)
    requires Sorted(Le, sorted)
    ensures VSeq(sorted) == SetVal(s)
  {
    PermutationIsDistinct(iteration, sorted);
    forall x ensures x in sorted <==> x in s {
      assert x in sorted <==> x in multiset(sorted);
    }
    InOrderIsUnique(sorted, s);
  }

  ghost predicate MapHasType(k: Ty, w: Ty, m: map<Val, Val>) {
    && |m| < TWO_64
    && forall x :: x in m ==> HasType(k, x) && HasType(w, m[x])
  }

  lemma InOrderAscends(s: set<Val>, i: nat, j: nat)
    requires i < j < |InOrder(s)|
    ensures Lt(InOrder(s)[i], InOrder(s)[j])
  {
    InOrderIsSorted(s);
    assert Le(InOrder(s)[i], InOrder(s)[j]);
  }

  lemma MapValIsTyped(k: Ty, w: Ty, m: map<Val, Val>)
    requires MapHasType(k, w, m)
    ensures HasType(TMap(k, w), MapVal(m))
  {
    var keys := InOrder(m.Keys);
    var xs := Entries(m, keys);
    forall i, j | 0 <= i < j < |xs| ensures Lt(xs[i].fst, xs[j].fst) {
      InOrderAscends(m.Keys, i, j);
    }
    forall x | x in xs ensures x.VPair? && HasType(k, x.fst) && HasType(w, x.snd) {
      var i :| 0 <= i < |xs| && xs[i] == x;
      assert keys[i] in keys;
    }
  }

  /** Two maps with the same stream, even inside longer streams, are the same map. */
  lemma MapStreamsAreInjective(k: Ty, w: Ty, m: map<Val, Val>, n: map<Val, Val>, r: Bytes, s: Bytes)
    requires MapHasType(k, w, m) && MapHasType(k, w, n)
    requires Encode(MapVal(m)) + r == Encode(MapVal(n)) + s
    ensures m == n && r == s
  {
    MapValIsTyped(k, w, m);
    MapValIsTyped(k, w, n);
    UniquelyDecodable(TMap(k, w), MapVal(m), MapVal(n), r, s);
    MapValIsInjective(m, n);
  }

  lemma MapValIsInjective(m: map<Val, Val>, n: map<Val, Val>)
    requires MapVal(m) == MapVal(n)
    ensures m == n
  {
    MapValDetermines(m, n);
    MapValDetermines(n, m);
  }

  lemma MapValDetermines(m: map<Val, Val>, n: map<Val, Val>)
    requires MapVal(m) == MapVal(n)
    ensures forall x :: x in m ==> x in n && n[x] == m[x]
  {
    var keys, others := InOrder(m.Keys), InOrder(n.Keys);
    forall x | x in m ensures x in n && n[x] == m[x] {
      assert x in keys;
      var i :| 0 <= i < |keys| && keys[i] == x;
      assert MapVal(m).xs[i] == VPair(x, m[x]) == MapVal(n).xs[i] == VPair(others[i], n[others[i]]);
      assert others[i] in others;
    }
  }

  // ---------------------------------------------------------------- the hasher

  lemma {:induction false} EncodeAllSnoc(xs: seq<Val>, x: Val)
    ensures EncodeAll(xs + [x]) == EncodeAll(xs) + Encode(x)
  {
    if xs == [] {
      assert xs + [x] == [x];
      assert EncodeAll([x]) == Encode(x) + EncodeAll([]);
    } else {
      assert (xs + [x])[1..] == xs[1..] + [x];
      EncodeAllSnoc(xs[1..], x);
    }
  }

  /** The state of the hash function: everything it has been fed. */
  class Hasher {
    var input: Bytes

    constructor ()
      ensures input == []
    {
      input := [];
    }

    method Absorb(bytes: Bytes)
      modifies this
      ensures input == old(input) + bytes
    {
      input := input + bytes;
    }

    /** `ContentHash::update` for every shape but the unordered containers. */
    method Update(v: Val)
      modifies this
      ensures input == old(input) + Encode(v)
      decreases v, 1
    {
      match v
      case VUnit =>
      case VBool(b) => Absorb([if b then 1 else 0]);
      case VU8(u) => Absorb([u]);
      case VI32(i) => Absorb(LE(i % TWO_32, 4));
      case VI64(l) => Absorb(LE(l % TWO_64, 8));
      case VSeq(xs) =>
        UpdateElements(xs, |xs|);
      case VPair(a, b) =>
        ghost var before := input;
        Update(a);
        Update(b);
        assert before + Encode(a) + Encode(b) == before + (Encode(a) + Encode(b));
      case VTag(tag, x) =>
        ghost var before := input;
        Absorb([tag]);
        Update(x);
        assert before + [tag] + Encode(x) == before + ([tag] + Encode(x));
    }

    /** The length prefix, then the loop over the elements of a slice or of a sorted container. */
    method UpdateElements(xs: seq<Val>, len: nat)
      requires len == |xs|
      modifies this
      ensures input == old(input) + Encode(VSeq(xs))
      decreases xs, 0
    {
      Absorb(LE(len, 8));
      ghost var prefix := input;
      for i := 0 to |xs|
        invariant input == prefix + EncodeAll(xs[..i])
      {
        Update(xs[i]);
        EncodeAllSnoc(xs[..i], xs[i]);
        assert xs[..i + 1] == xs[..i] + [xs[i]];
      }
      assert xs[..|xs|] == xs;
      assert old(input) + LE(len, 8) + EncodeAll(xs) == old(input) + (LE(len, 8) + EncodeAll(xs));
    }

    /** `ContentHash::update` for a `HashMap`, given the order in which the map happens to be iterated and the
        order in which the sort happens to leave the entries. */
    method UpdateHashMap(ghost m: map<Val, Val>, iteration: seq<Val>, sorted: seq<Val>)
      requires Iterates(iteration, m)
      requires multiset(sorted) == multiset(iteration)
      requires AreEntries(sorted) && SortedByKey(sorted)
      modifies this
      ensures input == old(input) + Encode(MapVal(m))
    {
      HashMapIsCanonical(m, iteration, sorted);
      PermutationLength(iteration, sorted);
      UpdateElements(sorted, |iteration|);
    }

    /** `ContentHash::update` for a `HashSet`, given its iteration order. */
    method UpdateHashSet(ghost s: set<Val>, iteration: seq<Val>, sorted: seq<Val>)
      requires Enumerates(iteration, s)
      requires multiset(sorted) == multiset(iteration)
      requires Sorted(Le, sorted)
      modifies this
      ensures input == old(input) + Encode(SetVal(s))
    {
      HashSetIsCanonical(s, iteration, sorted);
      PermutationLength(iteration, sorted);
      UpdateElements(sorted, |iteration|);
    }

    /** `ContentHash::update` for a `BTreeMap`, whose iteration is in key order. */
    method UpdateBTreeMap(m: map<Val, Val>)
      modifies this
      ensures input == old(input) + Encode(MapVal(m))
    {
      var keys := InOrder(m.Keys);
      UpdateElements(Entries(m, keys), |m.Keys|);
    }
  }
}
