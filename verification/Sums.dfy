/** The checksums of directory entries: rotate right by one bit and add the next byte. */
module Sums {
  import opened Arith
  import opened FatCodec
  import opened Bits

  /** A number of twice `half` values, rotated right by one bit. */
  function RotRight(s: nat, half: nat): nat {
    s / 2 + s % 2 * half
  }

  /** The bits below a high one do not depend on it. */
  lemma {:induction false} HighBit(x: nat, n: nat, k: nat)
    requires x < Pow2(n) && k <= n
    ensures TestBit(x + Pow2(n), k) == (k == n || TestBit(x, k))
    ensures !TestBit(x, n)
  {
    if n > 0 {
      Halves(x, Pow2(n - 1));
      assert (x + Pow2(n)) / 2 == x / 2 + Pow2(n - 1) && (x + Pow2(n)) % 2 == x % 2;
      HighBit(x / 2, n - 1, if k > 0 then k - 1 else 0);
    }
  }

  lemma Around(k: nat, n: nat)
    requires k < n
    ensures (k + 1) % n == if k + 1 == n then 0 else k + 1
  {
  }

  /** Bit by bit: each one moves down by one, the lowest to the top. */
  lemma {:induction false} RotRightBits(s: nat, n: nat, k: nat)
    requires s < Pow2(n + 1) && k <= n
    ensures RotRight(s, Pow2(n)) < Pow2(n + 1)
    ensures TestBit(RotRight(s, Pow2(n)), k) == TestBit(s, (k + 1) % (n + 1))
  {
    var top := Pow2(n);
    Halves(s, top);
    HighBit(s / 2, n, k);
    Around(k, n + 1);
    if s % 2 == 0 { assert RotRight(s, top) == s / 2; } else { assert RotRight(s, top) == s / 2 + top; }
  }

  /** The sum after one more byte. */
  function AddByte(s: nat, half: nat, b: byte): nat
    requires half > 0
  {
    (RotRight(s, half) + b) % (2 * half)
  }

  /** Different sums stay different. */
  lemma AddByteSum(s: nat, t: nat, half: nat, b: byte)
    requires half > 0 && s < 2 * half && t < 2 * half
    ensures AddByte(s, half, b) == AddByte(t, half, b) <==> s == t
  {
    Unrotated(s, t, half);
    SameRemainder(RotRight(s, half), RotRight(t, half), b, 2 * half);
  }

  lemma Unrotated(s: nat, t: nat, half: nat)
    requires half > 0 && s < 2 * half && t < 2 * half
    ensures RotRight(s, half) < 2 * half && (RotRight(s, half) == RotRight(t, half) <==> s == t)
  {
    Halves(s, half);
    Halves(t, half);
    if s % 2 == 0 { assert RotRight(s, half) == s / 2; } else { assert RotRight(s, half) == s / 2 + half; }
    if t % 2 == 0 { assert RotRight(t, half) == t / 2; } else { assert RotRight(t, half) == t / 2 + half; }
  }

  /** Adding the same to numbers below `m` tells them apart as before. */
  lemma SameRemainder(x: nat, y: nat, d: nat, m: nat)
    requires x < m && y < m
    ensures (x + d) % m == (y + d) % m <==> x == y
  {
    DivModOf(x + d, m);
    DivModOf(y + d, m);
    if (x + d) % m == (y + d) % m { EuclidUnique(m, (y + d) / m, x, (x + d) / m, y); }
  }

  /** Different bytes make different sums. */
  lemma AddByteByte(s: nat, half: nat, a: byte, b: byte)
    requires half >= 0x80 && s < 2 * half
    ensures AddByte(s, half, a) == AddByte(s, half, b) <==> a == b
  {
    SameRemainder(a, b, RotRight(s, half), 2 * half);
  }

  /** The sum of bytes. */
  function SumOf(data: seq<byte>, half: nat): (r: nat)
    requires half > 0
    ensures r < 2 * half
  {
    if data == [] then 0 else AddByte(SumOf(data[..|data| - 1], half), half, data[|data| - 1])
  }

  /** Data that differs in one byte has another sum. */
  lemma {:induction false} SumOfDiffers(a: seq<byte>, b: seq<byte>, half: nat, j: nat)
    requires half >= 0x80 && |a| == |b| && j < |a| && a[j] != b[j] && forall i | 0 <= i < |a| && i != j :: a[i] == b[i]
    ensures SumOf(a, half) != SumOf(b, half)
  {
    var n := |a| - 1;
    if j < n {
      SumOfDiffers(a[..n], b[..n], half, j);
      AddByteSum(SumOf(a[..n], half), SumOf(b[..n], half), half, a[n]);
    } else {
      assert a[..n] == b[..n];
      AddByteByte(SumOf(a[..n], half), half, a[n], b[n]);
    }
  }

  lemma {:induction false} SumOfNext(data: seq<byte>, half: nat, k: nat, s: nat)
    requires half > 0 && k < |data| && SumOf(data[..k], half) == s
    ensures SumOf(data[..k + 1], half) == AddByte(s, half, data[k])
  {
    assert data[..k + 1][..k] == data[..k];
  }

  /** The value of a step, without products and remainders. */
  lemma AddByteIs(s: nat, half: nat, b: byte)
    requires half >= 0x80 && s < 2 * half
    ensures var t := s / 2 + (if s % 2 == 1 then half else 0) + b;
            AddByte(s, half, b) == if t < 2 * half then t else t - 2 * half
  {
    Unrotated(s, s, half);
    Once(RotRight(s, half) + b, 2 * half);
  }

  lemma Once(x: nat, m: nat)
    requires 0 < m && x < 2 * m
    ensures x % m == if x < m then x else x - m
  {
    DivModOf(x, m);
    if x < m { DivModIs(x, m, 0, x); } else { DivModIs(x, m, 1, x - m); }
  }
}
