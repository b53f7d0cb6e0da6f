/** Fixed-width little-endian integers, as `to_le_bytes` lays them out. */
module LittleEndian {
  import opened Basics

  /** The low `width` bytes of n, least significant first. */
  function LE(n: nat, width: nat): (bytes: Bytes)
    ensures |bytes| == width
  {
    if width == 0 then [] else [n % 256] + LE(n / 256, width - 1)
  }

  function FromLE(bytes: Bytes): nat {
    if bytes == [] then 0 else bytes[0] + 256 * FromLE(bytes[1..])
  }

  function Pow256(width: nat): nat {
    if width == 0 then 1 else 256 * Pow256(width - 1)
  }

  lemma {:induction false} FromLEInverts(n: nat, width: nat)
    requires n < Pow256(width)
    ensures FromLE(LE(n, width)) == n
  {
    if width > 0 {
      FromLEInverts(n / 256, width - 1);
      assert LE(n, width)[1..] == LE(n / 256, width - 1);
    }
  }

  lemma {:induction false} FromLEBound(bytes: Bytes)
    ensures FromLE(bytes) < Pow256(|bytes|)
  {
    if bytes != [] {
      FromLEBound(bytes[1..]);
    }
  }

  /** The k-th byte is the k-th digit of the number in base 256. */
  lemma {:induction false} LEDigit(n: nat, width: nat, k: nat)
    requires k < width
    ensures Pow256(k) > 0 && LE(n, width)[k] == n / Pow256(k) % 256
  {
    if k > 0 {
      LEDigit(n / 256, width - 1, k - 1);
      DivideTwice(n, Pow256(k - 1));
    }
  }

  lemma DivideTwice(n: nat, b: nat)
    requires b > 0
    ensures n / 256 / b == n / (256 * b)
  {
    var q := n / 256 / b;
    var rest := n - 256 * b * q;
    assert n / 256 == b * q + n / 256 % b;
    assert n == 256 * (b * q) + 256 * (n / 256 % b) + n % 256;
    assert 256 * (b * q) == 256 * b * q;
    assert 0 <= rest < 256 * b;
    QuotientIs(n, 256 * b, q);
  }

  lemma QuotientIs(n: nat, d: nat, q: nat)
    requires d > 0 && 0 <= n - d * q < d
    ensures n / d == q
  {
    var p := n / d;
    assert d * p <= n < d * p + d;
    if p < q { TimesGrows(d, p + 1, q); }
    if p > q { TimesGrows(d, q + 1, p); }
  }

  lemma {:induction false} TimesGrows(d: nat, a: nat, b: nat)
    requires a <= b
    ensures d * a <= d * b
  {
  }

  lemma WidthValues()
    ensures Pow256(4) == TWO_32
    ensures Pow256(8) == TWO_64
  {
    assert Pow256(2) == 65536;
    assert Pow256(4) == 256 * (256 * Pow256(2));
    assert Pow256(6) == 256 * (256 * Pow256(4));
    assert Pow256(8) == 256 * (256 * Pow256(6));
  }

  /** Two's complement at the width of a 32- or 64-bit signed integer, and back. */
  function ToSigned(n: nat, modulus: nat): int {
    if n < modulus / 2 then n else n - modulus
  }
}
