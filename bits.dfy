/**
 * Bytes and bit strings. Every codec of the model (hex, Base32, the HOTP
 * counter) is stated over these, most significant bit first.
 */
module Bits {

  /** An octet, as Python's `bytes` holds them. */
  type byte = b: int | 0 <= b < 256

  /** `base` raised to the `n`th power. */
  function Pow(base: nat, n: nat): (r: nat)
    ensures base > 0 ==> r > 0
  {
    if n == 0 then 1 else base * Pow(base, n - 1)
  }

  /** The `width` low-order bits of `v`, most significant first. */
  function NatToBits(v: nat, width: nat): (bits: seq<bool>)
    ensures |bits| == width
  {
    if width == 0 then [] else NatToBits(v / 2, width - 1) + [v % 2 == 1]
  }

  /** The number a bit string denotes, most significant bit first. */
  function BitsToNat(bits: seq<bool>): (v: nat)
    ensures v < Pow(2, |bits|)
  {
    if bits == [] then 0
    else 2 * BitsToNat(bits[..|bits| - 1]) + (if bits[|bits| - 1] then 1 else 0)
  }

  lemma {:induction false} NatToBitsRoundTrip(v: nat, width: nat)
    requires v < Pow(2, width)
    ensures BitsToNat(NatToBits(v, width)) == v
  {
    if width > 0 {
      var bits := NatToBits(v, width);
      assert bits[..width - 1] == NatToBits(v / 2, width - 1);
      NatToBitsRoundTrip(v / 2, width - 1);
    }
  }

  lemma {:induction false} BitsToNatRoundTrip(bits: seq<bool>)
    ensures NatToBits(BitsToNat(bits), |bits|) == bits
  {
    if bits != [] {
      var n := |bits|;
      var front := bits[..n - 1];
      assert BitsToNat(bits) / 2 == BitsToNat(front);
      assert (BitsToNat(bits) % 2 == 1) == bits[n - 1];
      BitsToNatRoundTrip(front);
      assert bits == front + [bits[n - 1]];
    }
  }

  /** Eight bits per byte, in order. */
  function BytesToBits(bs: seq<byte>): (bits: seq<bool>)
    ensures |bits| == 8 * |bs|
  {
    if bs == [] then [] else NatToBits(bs[0], 8) + BytesToBits(bs[1..])
  }

  /** Groups a bit string whose length is a multiple of 8 into bytes. */
  function BitsToBytes(bits: seq<bool>): (bs: seq<byte>)
    requires |bits| % 8 == 0
    ensures |bs| == |bits| / 8
  {
    if bits == [] then []
    else
      assert Pow(2, 8) == 256;
      [BitsToNat(bits[..8]) as byte] + BitsToBytes(bits[8..])
  }

  lemma {:induction false} BytesToBitsRoundTrip(bs: seq<byte>)
    ensures BitsToBytes(BytesToBits(bs)) == bs
  {
    if bs != [] {
      var bits := BytesToBits(bs);
      assert bits[..8] == NatToBits(bs[0], 8);
      assert bits[8..] == BytesToBits(bs[1..]);
      assert Pow(2, 8) == 256;
      NatToBitsRoundTrip(bs[0], 8);
      BytesToBitsRoundTrip(bs[1..]);
    }
  }

  /** `n` zero bits. */
  function ZeroBits(n: nat): (bits: seq<bool>)
    ensures |bits| == n && forall i :: 0 <= i < n ==> !bits[i]
  {
    seq(n, _ => false)
  }

  /** Euclidean quotient is determined by any quotient-remainder split. */
  lemma DivUnique(n: int, m: int, q: int, x: int)
    requires m > 0 && n == m * q + x && 0 <= x < m
    ensures n / m == q
  {
    var k := n / m;
    assert m * (q - k) == n % m - x;
    if q > k {
      MulAtLeast(m, q - k);
    } else if q < k {
      MulAtLeast(m, k - q);
    }
  }

  /** Euclidean remainder is determined by any quotient-remainder split. */
  lemma ModUnique(n: int, m: int, q: int, x: int)
    requires m > 0 && n == m * q + x && 0 <= x < m
    ensures n % m == x
  {
    DivUnique(n, m, q, x);
  }

  lemma MulAtLeast(m: nat, a: nat)
    requires a >= 1
    ensures m * a >= m
  {
    assert m * a == m * (a - 1) + m;
  }
}
