/** Bitmaps: bits of a byte, and runs of bytes read as runs of bits, low bit first. */
module Bits {
  import opened FatCodec

  /** `b & (1 << k)` is not zero. */
  predicate TestBit(b: nat, k: nat) {
    if k == 0 then b % 2 == 1 else TestBit(b / 2, k - 1)
  }

  /** `b ^ (1 << k)`. */
  function Flipped(b: nat, k: nat): nat {
    if k == 0 then (if b % 2 == 1 then b - 1 else b + 1)
    else 2 * Flipped(b / 2, k - 1) + b % 2
  }

  function Pow2(n: nat): (p: nat)
    ensures p >= 1
  {
    if n == 0 then 1 else 2 * Pow2(n - 1)
  }

  lemma {:induction false} FlippedBound(b: nat, k: nat, n: nat)
    requires k < n && b < Pow2(n)
    ensures Flipped(b, k) < Pow2(n)
  {
    Halves(b, Pow2(n - 1));
    if k > 0 {
      FlippedBound(b / 2, k - 1, n - 1);
      Doubled(Flipped(b / 2, k - 1), b % 2, Pow2(n - 1));
    }
  }

  lemma Halves(b: nat, half: nat)
    requires b < 2 * half
    ensures b / 2 < half && (b % 2 == 0 ==> b + 1 < 2 * half)
  {
  }

  lemma Doubled(f: nat, r: nat, half: nat)
    requires f < half && r < 2
    ensures 2 * f + r < 2 * half
  {
  }

  lemma FlippedByte(b: byte, k: nat)
    requires k < 8
    ensures Flipped(b, k) < 256
  {
    assert Pow2(8) == 256;
    FlippedBound(b, k, 8);
  }

  /** `b | (1 << k)` or `b & ~(1 << k)` in a byte. */
  function PutBit(b: byte, k: nat, value: bool): byte
    requires k < 8
  {
    FlippedByte(b, k);
    if TestBit(b, k) == value then b else Flipped(b, k)
  }

  lemma {:induction false} FlippedTest(b: nat, k: nat, j: nat)
    ensures TestBit(Flipped(b, k), j) == if j == k then !TestBit(b, j) else TestBit(b, j)
  {
    if k > 0 && j > 0 {
      FlippedTest(b / 2, k - 1, j - 1);
      assert Flipped(b, k) / 2 == Flipped(b / 2, k - 1);
    } else if k == 0 && j > 0 {
      assert Flipped(b, k) / 2 == b / 2;
    }
  }

  /** Putting one bit changes that bit and no other. */
  lemma PutTest(b: byte, k: nat, value: bool, j: nat)
    requires k < 8
    ensures TestBit(PutBit(b, k, value), j) == if j == k then value else TestBit(b, j)
  {
    FlippedTest(b, k, j);
  }

  lemma {:induction false} ZeroBits(k: nat)
    ensures !TestBit(0, k)
  {
    if k > 0 { ZeroBits(k - 1); }
  }

  lemma {:induction false} OneBits(n: nat, k: nat)
    requires k < n
    ensures TestBit(Pow2(n) - 1, k)
  {
    if k > 0 {
      OneBits(n - 1, k - 1);
      assert (Pow2(n) - 1) / 2 == Pow2(n - 1) - 1;
    }
  }

  // ---- runs of bits ----

  /** The first `n` bits of a run of bytes. */
  function BitsOf(bytes: seq<byte>, n: nat): (bits: seq<bool>)
    requires n <= 8 * |bytes|
    ensures |bits| == n
  {
    if n == 0 then [] else BitsOf(bytes, n - 1) + [TestBit(bytes[(n - 1) / 8], (n - 1) % 8)]
  }

  lemma {:induction false} BitsAt(bytes: seq<byte>, n: nat, j: nat, k: nat)
    requires n <= 8 * |bytes| && 8 * j + k < n && k < 8
    ensures BitsOf(bytes, n)[8 * j + k] == TestBit(bytes[j], k)
  {
    if 8 * j + k < n - 1 {
      BitsAt(bytes, n - 1, j, k);
    }
  }

  /** Putting one bit of one byte puts one bit of the run. */
  lemma {:induction false} BitsPut(bytes: seq<byte>, n: nat, j: nat, k: nat, value: bool)
    requires n <= 8 * |bytes| && j < |bytes| && k < 8
    ensures 8 * j + k < n ==>
              BitsOf(bytes[j := PutBit(bytes[j], k, value)], n) == BitsOf(bytes, n)[8 * j + k := value]
    ensures 8 * j + k >= n ==> BitsOf(bytes[j := PutBit(bytes[j], k, value)], n) == BitsOf(bytes, n)
  {
    if n > 0 {
      BitsPut(bytes, n - 1, j, k, value);
      var m := n - 1;
      PutTest(bytes[j], k, value, m % 8);
      assert m == 8 * (m / 8) + m % 8;
    }
  }
}
