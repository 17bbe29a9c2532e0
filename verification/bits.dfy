/** Bits packed into a byte, most significant first, as the raster encoder
    of web/epilog.js packs pixels: the first bit weighs 128, and each later
    one half the one before. A reference definition (Horner's rule) and the
    unpacking that undoes it are the partners of the encoder's running sum. */
module Bits {

  function Pow2(n: nat): (p: nat)
    ensures p >= 1
  {
    if n == 0 then 1 else 2 * Pow2(n - 1)
  }

  /** The weight of bit j of a byte: 128, 64, ..., 1, then 0 (integer
      halving of the source's `bit /= 2`). */
  function Weight(j: nat): nat {
    if j == 0 then 128 else Weight(j - 1) / 2
  }

  function BitValue(b: bool): nat {
    if b then 1 else 0
  }

  /** The running sum of the source's loop after j bits: each set bit adds
      its weight. */
  function WeightedSum(bits: seq<bool>, j: nat): nat
    requires j <= |bits|
  {
    if j == 0 then 0 else WeightedSum(bits, j - 1) + (if bits[j - 1] then Weight(j - 1) else 0)
  }

  /** The number the first j bits spell, most significant first. */
  function Pack(bits: seq<bool>, j: nat): (n: nat)
    requires j <= |bits|
    ensures n < Pow2(j)
  {
    if j == 0 then 0 else 2 * Pack(bits, j - 1) + BitValue(bits[j - 1])
  }

  /** The count lowest bits of n, most significant first. */
  function Unpack(n: nat, count: nat): (bits: seq<bool>)
    ensures |bits| == count
  {
    if count == 0 then [] else Unpack(n / 2, count - 1) + [n % 2 == 1]
  }

  /** Unpacking recovers the packed bits. */
  lemma {:induction false} UnpackPack(bits: seq<bool>, j: nat)
    requires j <= |bits|
    ensures Unpack(Pack(bits, j), j) == bits[..j]
  {
    if j > 0 {
      UnpackPack(bits, j - 1);
      var n := Pack(bits, j);
      assert n / 2 == Pack(bits, j - 1);
      assert n % 2 == BitValue(bits[j - 1]);
      assert bits[..j] == bits[..j - 1] + [bits[j - 1]];
    }
  }

  /** Packing recovers a number that fits in count bits. */
  lemma {:induction false} PackUnpack(n: nat, count: nat)
    requires n < Pow2(count)
    ensures Pack(Unpack(n, count), count) == n
  {
    if count > 0 {
      var bits := Unpack(n, count);
      PackUnpack(n / 2, count - 1);
      assert n / 2 < Pow2(count - 1);
      assert bits[..count - 1] == Unpack(n / 2, count - 1);
      PackPrefix(bits, count - 1, count - 1);
      assert bits[count - 1] == (n % 2 == 1);
    }
  }

  /** Packing looks only at the bits it packs. */
  lemma {:induction false} PackPrefix(bits: seq<bool>, j: nat, n: nat)
    requires j <= n <= |bits|
    ensures Pack(bits[..n], j) == Pack(bits, j)
  {
    if j > 0 {
      PackPrefix(bits, j - 1, n);
    }
  }

  /** A full byte's running sum is its packed value. */
  lemma ByteSumIsPack(bits: seq<bool>)
    requires |bits| == 8
    ensures WeightedSum(bits, 8) == Pack(bits, 8)
  {
    SumIsScaledPack(bits, 8);
  }

  /** After j of the eight bits, the running sum is the number those bits
      spell shifted into the high end of the byte. */
  lemma {:induction false} SumIsScaledPack(bits: seq<bool>, j: nat)
    requires |bits| == 8 && j <= 8
    ensures WeightedSum(bits, j) == Pack(bits, j) * Pow2(8 - j)
  {
    if j > 0 {
      SumIsScaledPack(bits, j - 1);
      WeightIsPow2(j - 1);
      var p, w, v := Pack(bits, j - 1), Pow2(8 - j), BitValue(bits[j - 1]);
      assert Pow2(9 - j) == 2 * w;
      var added := if bits[j - 1] then Weight(j - 1) else 0;
      assert added == v * w by {
        if bits[j - 1] { assert v == 1; } else { assert v == 0; }
      }
      ShiftStep(p, v, w, WeightedSum(bits, j - 1));
      assert WeightedSum(bits, j) == WeightedSum(bits, j - 1) + added;
      assert Pack(bits, j) == 2 * p + v;
    }
  }

  /** Shifting in one more bit: p shifted one place further, plus the new
      bit, is twice p plus the bit, shifted. */
  lemma ShiftStep(p: int, v: int, w: int, s: int)
    requires s == p * (2 * w)
    ensures s + v * w == (2 * p + v) * w
  {
  }

  /** Bit j of a byte weighs 2 to the power 7 - j. */
  lemma {:induction false} WeightIsPow2(j: nat)
    requires j < 8
    ensures Weight(j) == Pow2(7 - j)
  {
    if j == 0 {
      assert Pow2(1) == 2 && Pow2(2) == 4 && Pow2(3) == 8;
      assert Pow2(4) == 16 && Pow2(5) == 32 && Pow2(6) == 64 && Pow2(7) == 128;
    } else {
      WeightIsPow2(j - 1);
      assert Pow2(8 - j) == 2 * Pow2(7 - j);
    }
  }

  /** Bits that are not set add nothing to the running sum. */
  lemma {:induction false} SumUnset(bits: seq<bool>, m: nat, j: nat)
    requires m <= j <= |bits|
    requires forall i :: m <= i < |bits| ==> !bits[i]
    ensures WeightedSum(bits, j) == WeightedSum(bits, m)
  {
    if j > m {
      SumUnset(bits, m, j - 1);
    }
  }
}
