/** Total orders, and the one sorted enumeration a finite set has under such an order.
    Both the iteration of an ordered map and the sort of a hash map's entries rest on it. */
module Ordering {
  import opened Basics

  ghost predicate TotalOrder<T(!new)>(le: (T, T) -> bool) {
    && (forall x, y :: le(x, y) || le(y, x))
    && (forall x, y :: le(x, y) && le(y, x) ==> x == y)
    && (forall x, y, z :: le(x, y) && le(y, z) ==> le(x, z))
  }

  ghost predicate Sorted<T(!new)>(le: (T, T) -> bool, xs: seq<T>) {
    forall i, j :: 0 <= i < j < |xs| ==> le(xs[i], xs[j])
  }

  ghost predicate Distinct<T(!new)>(xs: seq<T>) {
    forall i, j :: 0 <= i < j < |xs| ==> xs[i] != xs[j]
  }

  /** xs lists the elements of s, each exactly once. */
  ghost predicate Enumerates<T(!new)>(xs: seq<T>, s: set<T>) {
    && Distinct(xs)
    && (forall x :: x in xs <==> x in s)
  }

  ghost predicate IsLeast<T(!new)>(x: T, s: set<T>, le: (T, T) -> bool) {
    x in s && forall y :: y in s ==> le(x, y)
  }

  lemma {:induction false} LeastExists<T(!new)>(s: set<T>, le: (T, T) -> bool) returns (least: T)
    requires TotalOrder(le) && s != {}
    ensures IsLeast(least, s, le)
    decreases |s|
  {
    var x :| x in s;
    least := x;
    if s != {x} {
      var rest := LeastExists(s - {x}, le);
      least := if le(x, rest) then x else rest;
      forall y | y in s ensures le(least, y) {
        if y != x { assert y in s - {x}; }
      }
    }
  }

  lemma LeastExistsAndIsUnique<T(!new)>(s: set<T>, le: (T, T) -> bool)
    requires TotalOrder(le) && s != {}
    ensures exists x :: IsLeast(x, s, le)
    ensures forall x, y :: IsLeast(x, s, le) && IsLeast(y, s, le) ==> x == y
  {
    var least := LeastExists(s, le);
  }

  function Least<T(!new, ==)>(s: set<T>, le: (T, T) -> bool): (least: T)
    requires TotalOrder(le) && s != {}
    ensures IsLeast(least, s, le)
  {
    LeastExistsAndIsUnique(s, le);
    assert forall x :: IsLeast(x, s, le) <==> (x in s && forall y | y in s :: le(x, y));
    var x :| x in s && forall y | y in s :: le(x, y);
    x
  }

  /** The elements of s in ascending order. */
  function Ascending<T(!new, ==)>(s: set<T>, le: (T, T) -> bool): (xs: seq<T>)
    requires TotalOrder(le)
    decreases |s|
  {
    if s == {} then []
    else
      var x := Least(s, le);
      [x] + Ascending(s - {x}, le)
  }

  lemma {:induction false} AscendingEnumerates<T(!new)>(s: set<T>, le: (T, T) -> bool)
    requires TotalOrder(le)
    ensures Sorted(le, Ascending(s, le)) && Enumerates(Ascending(s, le), s) && |Ascending(s, le)| == |s|
    decreases |s|
  {
    if s != {} {
      var x := Least(s, le);
      var rest := Ascending(s - {x}, le);
      AscendingEnumerates(s - {x}, le);
      assert forall i :: 0 <= i < |rest| ==> rest[i] in s - {x};
      assert forall y :: y in s <==> y == x || y in s - {x};
    }
  }

  lemma TailEnumerates<T(!new)>(xs: seq<T>, s: set<T>)
    requires Enumerates(xs, s) && xs != []
    ensures Enumerates(xs[1..], s - {xs[0]})
  {
    assert xs == [xs[0]] + xs[1..];
    forall x | x in xs[1..] ensures x in s - {xs[0]} {
      var i :| 0 <= i < |xs[1..]| && xs[1..][i] == x;
      assert xs[i + 1] == x;
    }
  }

  lemma {:induction false} EnumerationLength<T(!new)>(xs: seq<T>, s: set<T>)
    requires Enumerates(xs, s)
    ensures |xs| == |s|
    decreases |xs|
  {
    if xs == [] {
      assert s == {};
    } else {
      TailEnumerates(xs, s);
      EnumerationLength(xs[1..], s - {xs[0]});
      assert xs[0] in s;
    }
  }

  /** A set has only one sorted enumeration. */
  lemma {:induction false} SortedEnumerationIsUnique<T(!new)>(le: (T, T) -> bool, xs: seq<T>, ys: seq<T>, s: set<T>)
    requires TotalOrder(le)
    requires Sorted(le, xs) && Enumerates(xs, s)
    requires Sorted(le, ys) && Enumerates(ys, s)
    ensures xs == ys
    decreases |s|
  {
    EnumerationLength(xs, s);
    EnumerationLength(ys, s);
    if xs != [] {
      var x, y := xs[0], ys[0];
      assert x in s && y in s;
      assert x in ys && y in xs;
      assert le(y, x) && le(x, y);
      TailEnumerates(xs, s);
      TailEnumerates(ys, s);
      SortedEnumerationIsUnique(le, xs[1..], ys[1..], s - {x});
      assert xs == [x] + xs[1..] && ys == [x] + ys[1..];
    }
  }

  /** The order of byte strings: lexicographic, a proper prefix first. */
  predicate LexLe(a: Bytes, b: Bytes) {
    if a == [] then true
    else if b == [] then false
    else if a[0] != b[0] then a[0] < b[0]
    else LexLe(a[1..], b[1..])
  }

  lemma {:induction false} LexTotal(a: Bytes, b: Bytes)
    ensures LexLe(a, b) || LexLe(b, a)
    ensures LexLe(a, b) && LexLe(b, a) ==> a == b
  {
    if a != [] && b != [] && a[0] == b[0] {
      LexTotal(a[1..], b[1..]);
      assert a == [a[0]] + a[1..] && b == [b[0]] + b[1..];
    }
  }

  lemma {:induction false} LexTransitive(a: Bytes, b: Bytes, c: Bytes)
    requires LexLe(a, b) && LexLe(b, c)
    ensures LexLe(a, c)
  {
    if a != [] && b != [] && c != [] && a[0] == b[0] == c[0] {
      LexTransitive(a[1..], b[1..], c[1..]);
    }
  }

  /** Where two byte strings first differ, the smaller byte decides; a prefix comes before its extensions. */
  ghost predicate DiffersBelow(a: Bytes, b: Bytes, k: nat) {
    k < |a| && k < |b| && a[..k] == b[..k] && a[k] < b[k]
  }

  lemma {:induction false} LexByFirstDifference(a: Bytes, b: Bytes)
    ensures LexLe(a, b) <==> a <= b || exists k: nat :: DiffersBelow(a, b, k)
  {
    if a != [] && b != [] {
      if a[0] == b[0] {
        LexByFirstDifference(a[1..], b[1..]);
        assert a == [a[0]] + a[1..] && b == [b[0]] + b[1..];
        assert a <= b <==> a[1..] <= b[1..];
        forall k: nat ensures DiffersBelow(a, b, k + 1) <==> DiffersBelow(a[1..], b[1..], k) {
          TailDiffers(a, b, k);
        }
        if k: nat :| DiffersBelow(a, b, k) {
          assert k > 0;
          assert DiffersBelow(a[1..], b[1..], k - 1);
        }
        if k: nat :| DiffersBelow(a[1..], b[1..], k) {
          assert DiffersBelow(a, b, k + 1);
        }
      } else if a[0] < b[0] {
        assert DiffersBelow(a, b, 0);
      } else {
        forall k: nat ensures !DiffersBelow(a, b, k) {
          if k > 0 && k < |a| && k < |b| { assert a[..k][0] != b[..k][0]; }
        }
      }
    }
  }

  lemma TailDiffers(a: Bytes, b: Bytes, k: nat)
    requires a != [] && b != [] && a[0] == b[0]
    ensures DiffersBelow(a, b, k + 1) <==> DiffersBelow(a[1..], b[1..], k)
  {
    if k < |a| - 1 && k < |b| - 1 {
      assert a[..k + 1] == [a[0]] + a[1..][..k] && b[..k + 1] == [b[0]] + b[1..][..k];
      assert a[..k + 1][1..] == a[1..][..k] && b[..k + 1][1..] == b[1..][..k];
    }
  }

  lemma LexIsTotalOrder()
    ensures TotalOrder(LexLe)
  {
    forall x: Bytes, y: Bytes ensures (LexLe(x, y) || LexLe(y, x)) && (LexLe(x, y) && LexLe(y, x) ==> x == y) {
      LexTotal(x, y);
    }
    forall x: Bytes, y: Bytes, z: Bytes | LexLe(x, y) && LexLe(y, z) ensures LexLe(x, z) {
      LexTransitive(x, y, z);
    }
  }
}
