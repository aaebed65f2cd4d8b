/**
 * Fixed-width integers and the big-endian bit accumulation that the sensor
 * decoder performs (`data *= 2; if (read) data++;`).
 */
module Bits {

  /** C#'s `uint`. */
  newtype uint32 = x: int | 0 <= x < 0x1_0000_0000

  /** C#'s `byte`. */
  newtype byte = x: int | 0 <= x < 0x100

  function Pow2(k: nat): (r: nat)
    ensures r >= 1
  {
    if k == 0 then 1 else 2 * Pow2(k - 1)
  }

  lemma {:induction false} Pow2Le(i: nat, j: nat)
    requires i <= j
    ensures Pow2(i) <= Pow2(j)
  {
    if i < j {
      Pow2Le(i, j - 1);
    }
  }

  lemma Pow2Constants()
    ensures Pow2(8) == 0x100 && Pow2(16) == 0x1_0000 && Pow2(32) == 0x1_0000_0000
  {
    assert Pow2(8) == 0x100;
    assert Pow2(16) == 0x1_0000;
    assert Pow2(24) == 0x100_0000;
  }

  /** Unchecked `uint` arithmetic: the result is taken modulo 2^32. */
  function Wrap32(x: int): (r: uint32)
    ensures 0 <= x < 0x1_0000_0000 ==> r as int == x
    ensures (r as int - x) % 0x1_0000_0000 == 0
  {
    (x % 0x1_0000_0000) as uint32
  }

  /** Assignment back into a `byte` (`crc *= 2`, `crc++`): modulo 2^8. */
  function Wrap8(x: int): (r: byte)
    ensures 0 <= x < 0x100 ==> r as int == x
    ensures (r as int - x) % 0x100 == 0
  {
    (x % 0x100) as byte
  }

  function BitValue(b: bool): nat
  {
    if b then 1 else 0
  }

  /**
   * The accumulator after folding the samples `bs` in, first sample first:
   * each step doubles it and adds the new bit. A field of k samples never
   * reaches 2^k.
   */
  function FromBits(bs: seq<bool>): (n: nat)
    ensures n < Pow2(|bs|)
  {
    if |bs| == 0 then 0 else 2 * FromBits(bs[..|bs| - 1]) + BitValue(bs[|bs| - 1])
  }

  /**
   * Shifting one more bit into a word of `|bs|` bits: `w * 2`, plus one for
   * a set bit. Below `width` bits the result stays below 2^width.
   */
  lemma ShiftIn(bs: seq<bool>, b: bool, width: nat)
    requires |bs| < width
    ensures FromBits(bs + [b]) == 2 * FromBits(bs) + BitValue(b)
    ensures FromBits(bs + [b]) < Pow2(width)
  {
    assert (bs + [b])[..|bs|] == bs;
    Pow2Le(|bs| + 1, width);
  }

  /** The positional reading: the sum of bs[i] * 2^(|bs|-1-i). */
  function WeightedSum(bs: seq<bool>): nat
  {
    if |bs| == 0 then 0 else BitValue(bs[0]) * Pow2(|bs| - 1) + WeightedSum(bs[1..])
  }

  /** The k-bit big-endian representation of n (its low k bits). */
  function ToBits(n: nat, k: nat): (bs: seq<bool>)
    ensures |bs| == k
  {
    if k == 0 then [] else ToBits(n / 2, k - 1) + [n % 2 == 1]
  }

  lemma {:induction false} WeightedSumSnoc(bs: seq<bool>)
    requires |bs| > 0
    ensures WeightedSum(bs) == 2 * WeightedSum(bs[..|bs| - 1]) + BitValue(bs[|bs| - 1])
  {
    var n := |bs|;
    if n > 1 {
      WeightedSumSnoc(bs[1..]);
      assert bs[1..][..n - 2] == bs[..n - 1][1..];
      assert bs[1..][n - 2] == bs[n - 1];
      assert Pow2(n - 1) == 2 * Pow2(n - 2);
    }
  }

  /** The accumulator equals the positional sum: the fold is big-endian. */
  lemma {:induction false} FromBitsIsWeightedSum(bs: seq<bool>)
    ensures FromBits(bs) == WeightedSum(bs)
  {
    if |bs| > 0 {
      FromBitsIsWeightedSum(bs[..|bs| - 1]);
      WeightedSumSnoc(bs);
    }
  }

  /** A field holding the samples of `a` and then those of `b`. */
  lemma {:induction false} FromBitsAppend(a: seq<bool>, b: seq<bool>)
    ensures FromBits(a + b) == FromBits(a) * Pow2(|b|) + FromBits(b)
  {
    if |b| == 0 {
      assert a + b == a;
    } else {
      var b' := b[..|b| - 1];
      var last := BitValue(b[|b| - 1]);
      var ab := a + b;
      assert ab[..|ab| - 1] == a + b';
      assert FromBits(ab) == 2 * FromBits(a + b') + last;
      FromBitsAppend(a, b');
      var x, p, y := FromBits(a), Pow2(|b'|), FromBits(b');
      assert Pow2(|b|) == 2 * p;
      assert FromBits(b) == 2 * y + last;
      MulDouble(x, p);
    }
  }

  lemma MulDouble(x: nat, p: nat)
    ensures 2 * (x * p) == x * (2 * p)
  {
  }

  lemma {:induction false} FromToBits(n: nat, k: nat)
    requires n < Pow2(k)
    ensures FromBits(ToBits(n, k)) == n
  {
    if k > 0 {
      var bs := ToBits(n, k);
      assert bs[..k - 1] == ToBits(n / 2, k - 1);
      FromToBits(n / 2, k - 1);
    }
  }

  lemma {:induction false} ToFromBits(bs: seq<bool>)
    ensures ToBits(FromBits(bs), |bs|) == bs
  {
    if |bs| > 0 {
      var init := bs[..|bs| - 1];
      var n := FromBits(bs);
      assert n / 2 == FromBits(init) && n % 2 == BitValue(bs[|bs| - 1]);
      ToFromBits(init);
      assert bs == init + [bs[|bs| - 1]];
    }
  }
}
