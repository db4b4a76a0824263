/**
 * Integer bit arithmetic shared by the codecs and the filters: powers of two,
 * the bit test `(v & (1 << i)) != 0`, and the value of a little-endian bit
 * string, which is what both `readCountFromBitSet` (32 bits) and the bit-plane
 * recombination (8 bits) compute.
 */
module Bits {

  /** 2^n, the source's `1 << n` for the small n it is used with. */
  function Pow2(n: nat): (r: nat)
    ensures r >= 1
  {
    if n == 0 then 1 else 2 * Pow2(n - 1)
  }

  lemma Pow2Eight()
    ensures Pow2(8) == 256
  {
    assert Pow2(4) == 16;
  }

  /** Bit i of a non-negative integer, i.e. `(v & (1 << i)) != 0`. */
  predicate Bit(v: nat, i: nat)
  {
    if i == 0 then v % 2 == 1 else Bit(v / 2, i - 1)
  }

  /** The value of a bit string read least significant bit first. */
  function BitsValue(bits: seq<bool>): (r: nat)
    ensures r < Pow2(|bits|)
  {
    if bits == [] then 0 else (if bits[0] then 1 else 0) + 2 * BitsValue(bits[1..])
  }

  /** The n lowest bits of v, least significant first. */
  function LowBits(v: nat, n: nat): (r: seq<bool>)
    ensures |r| == n
    ensures forall i :: 0 <= i < n ==> r[i] == Bit(v, i)
  {
    if n == 0 then [] else [v % 2 == 1] + LowBits(v / 2, n - 1)
  }

  /** The low n + 1 bits are the low n bits followed by bit n. */
  lemma {:induction false} LowBitsSnoc(v: nat, n: nat)
    ensures LowBits(v, n + 1) == LowBits(v, n) + [Bit(v, n)]
  {
    assert LowBits(v, n + 1)[..n] == LowBits(v, n);
  }

  /** Appending a most significant bit adds its weight: the step of a loop that
      ORs `1 << i` into an accumulator for i = 0, 1, ... */
  lemma {:induction false} BitsValueSnoc(bits: seq<bool>, b: bool)
    ensures BitsValue(bits + [b]) == BitsValue(bits) + (if b then Pow2(|bits|) else 0)
  {
    if bits != [] {
      assert (bits + [b])[1..] == bits[1..] + [b];
      BitsValueSnoc(bits[1..], b);
    }
  }

  /** Reading back the n low bits of a value below 2^n gives the value. */
  lemma {:induction false} LowBitsValue(v: nat, n: nat)
    requires v < Pow2(n)
    ensures BitsValue(LowBits(v, n)) == v
  {
    if n > 0 {
      LowBitsValue(v / 2, n - 1);
    }
  }

  /** A bit string has value 0 exactly when none of its bits is set. */
  lemma {:induction false} BitsValueZero(bits: seq<bool>)
    ensures BitsValue(bits) == 0 <==> forall i :: 0 <= i < |bits| ==> !bits[i]
  {
    if bits != [] {
      BitsValueZero(bits[1..]);
      assert forall i :: 1 <= i < |bits| ==> bits[1..][i - 1] == bits[i];
    }
  }

  /** A value below 2^n has no bit at or above position n. */
  lemma {:induction false} HighBitsClear(v: nat, n: nat, i: nat)
    requires v < Pow2(n) && n <= i
    ensures !Bit(v, i)
  {
    if n == 0 {
      assert v == 0;
      ZeroHasNoBits(i);
    } else {
      HighBitsClear(v / 2, n - 1, i - 1);
    }
  }

  /** A value other than 0 below 2^n has a set bit below position n. */
  lemma {:induction false} NonzeroHasBit(v: nat, n: nat)
    requires 0 < v < Pow2(n)
    ensures exists i :: 0 <= i < n && Bit(v, i)
  {
    LowBitsValue(v, n);
    BitsValueZero(LowBits(v, n));
  }

  lemma {:induction false} ZeroHasNoBits(i: nat)
    ensures !Bit(0, i)
  {
    if i > 0 {
      ZeroHasNoBits(i - 1);
    }
  }
}
