/** 64-bit words as the numbers they stand for, with the two operations on single bits that file handles need. */
module Words {
  import opened Basics

  function Pow2(n: nat): (p: nat)
    ensures p > 0
  {
    if n == 0 then 1 else 2 * Pow2(n - 1)
  }

  /** The lowest n bits of a number, lowest first. */
  function Bits(x: nat, n: nat): (bits: seq<bool>)
    ensures |bits| == n
  {
    if n == 0 then [] else [x % 2 == 1] + Bits(x / 2, n - 1)
  }

  function ValueOf(bits: seq<bool>): nat {
    if bits == [] then 0 else (if bits[0] then 1 else 0) + 2 * ValueOf(bits[1..])
  }

  /** `x | (1 << i)` on 64-bit words. */
  function OrBit(x: nat, i: nat): nat
    requires i < 64
  {
    ValueOf(Bits(x, 64)[i := true])
  }

  /** `x & (1 << i) != 0` on 64-bit words. */
  predicate HasBit(x: nat, i: nat)
    requires i < 64
  {
    Bits(x, 64)[i]
  }

  lemma {:induction false} BitsOfValue(bits: seq<bool>)
    ensures Bits(ValueOf(bits), |bits|) == bits
  {
    if bits != [] {
      BitsOfValue(bits[1..]);
      assert ValueOf(bits) / 2 == ValueOf(bits[1..]);
    }
  }

  lemma {:induction false} ValueOfBits(x: nat, n: nat)
    requires x < Pow2(n)
    ensures ValueOf(Bits(x, n)) == x
  {
    if n > 0 {
      ValueOfBits(x / 2, n - 1);
      assert Bits(x, n)[1..] == Bits(x / 2, n - 1);
    }
  }

  lemma {:induction false} SettingABit(bits: seq<bool>, i: nat)
    requires i < |bits| && !bits[i]
    ensures ValueOf(bits[i := true]) == ValueOf(bits) + Pow2(i)
  {
    if i > 0 {
      assert bits[i := true][1..] == bits[1..][i - 1 := true];
      SettingABit(bits[1..], i - 1);
    } else {
      assert bits[i := true][1..] == bits[1..];
    }
  }

  lemma {:induction false} HighBitsAreClear(x: nat, n: nat, i: nat)
    requires i < n && x < Pow2(i)
    ensures !Bits(x, n)[i]
  {
    if i > 0 { HighBitsAreClear(x / 2, n - 1, i - 1); }
  }

  lemma {:induction false} Pow2Grows(i: nat, n: nat)
    requires i <= n
    ensures Pow2(i) <= Pow2(n)
  {
    if i < n { Pow2Grows(i, n - 1); }
  }

  lemma {:induction false} Pow2Sum(a: nat, b: nat)
    ensures Pow2(a + b) == Pow2(a) * Pow2(b)
  {
    if a > 0 { Pow2Sum(a - 1, b); }
  }

  lemma Pow2Of32()
    ensures Pow2(32) == TWO_32
  {
    assert Pow2(4) == 16;
    Pow2Sum(4, 4);
    Pow2Sum(8, 8);
    Pow2Sum(16, 16);
  }

  lemma Pow2Values()
    ensures Pow2(62) == TWO_62 && Pow2(63) == TWO_63 && Pow2(64) == TWO_64
  {
    Pow2Of32();
    Pow2Sum(32, 28);
    assert Pow2(32) == 16 * Pow2(28);
    assert Pow2(62) == 4 * Pow2(60);
  }

  /** Setting bits 62 and 63 of a number below 2^62 adds them to it, and they can be read back. */
  lemma TopBits(x: nat, top: bool, next: bool)
    requires x < TWO_62
    ensures var bits := Bits(x, 64)[63 := top][62 := next];
            && ValueOf(bits) == x + (if top then TWO_63 else 0) + (if next then TWO_62 else 0)
            && Bits(ValueOf(bits), 64) == bits
  {
    Pow2Values();
    var bits := Bits(x, 64);
    ValueOfBits(x, 64);
    HighBitsAreClear(x, 64, 62);
    HighBitsAreClear(x, 64, 63);
    assert bits[63 := false] == bits && bits[63 := top][62 := false] == bits[63 := top];
    SettingABit(bits, 63);
    SettingABit(bits[63 := top], 62);
    BitsOfValue(bits[63 := top][62 := next]);
  }
}
