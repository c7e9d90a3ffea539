/** exFAT directory entry sets: building, storing and loading them, and finding a name. */
module ExfatEntries {
  import opened Bits
  import opened FatCodec
  import opened LongNames
  import opened Sums

  const ET_FILEDIR: byte := 0x85
  const ET_STREAM: byte := 0xC0
  const ET_FILENAME: byte := 0xC1

  const NUM_SEC: nat := 1     // number of secondary entries
  const SET_SUM: nat := 2     // checksum of the set
  const NUM_NAME: nat := 35   // length of the name
  const NAME_HASH: nat := 36

  const BUFFER: nat := 19 * 32  // room for the longest name

  /** Size of the set for a name of `nc` units. */
  function MaxDirB(nc: nat): nat {
    (nc + 44) / 15 * SZDIRE
  }

  /** Number of entries of a set. */
  function Entries(b: seq<byte>): nat
    requires |b| == BUFFER
  {
    b[NUM_SEC] as int + 1
  }

  // ---- checksums ----

  /** The value of a step, without products and remainders. */
  lemma StepIs(s: nat, b: byte, t: nat)
    requires s < 0x10000 && t == s / 2 + (if s % 2 == 1 then 0x8000 else 0) + b
    ensures (s / 2 + s % 2 * 0x8000 + b) % 0x10000 == if t < 0x10000 then t else t - 0x10000
  {
    AddByteIs(s, 0x8000, b);
  }

  lemma StepSum(s: nat, t: nat, b: byte)
    requires s < 0x10000 && t < 0x10000
    ensures (s / 2 + s % 2 * 0x8000 + b) % 0x10000 == (t / 2 + t % 2 * 0x8000 + b) % 0x10000 <==> s == t
  {
    AddByteSum(s, t, 0x8000, b);
  }

  lemma StepByte(s: nat, a: byte, b: byte)
    requires s < 0x10000
    ensures (s / 2 + s % 2 * 0x8000 + a) % 0x10000 == (s / 2 + s % 2 * 0x8000 + b) % 0x10000 <==> a == b
  {
    AddByteByte(s, 0x8000, a, b);
  }

  /** The sum after byte `i`. */
  function AddByteAt(b: seq<byte>, i: nat, sum: nat): (r: nat)
    requires i < |b|
    ensures r < 0x10000
  {
    (sum / 2 + sum % 2 * 0x8000 + b[i]) % 0x10000
  }

  /** `xdir_sum` of the first `n` bytes: the field that holds the sum is skipped. */
  function XSum(b: seq<byte>, n: nat): nat
    requires n <= |b|
  {
    if n == 0 then 0
    else if n - 1 == SET_SUM || n - 1 == SET_SUM + 1 then XSum(b, n - 1)
    else AddByteAt(b, n - 1, XSum(b, n - 1))
  }

  lemma {:induction false} XSumBound(b: seq<byte>, n: nat)
    requires n <= |b|
    ensures XSum(b, n) < 0x10000
  {
    if n > 0 { XSumBound(b, n - 1); }
  }

  /** The sum does not depend on the field that holds it. */
  lemma {:induction false} XSumSame(a: seq<byte>, b: seq<byte>, n: nat)
    requires n <= |a| && n <= |b| && forall i | 0 <= i < n && i != SET_SUM && i != SET_SUM + 1 :: a[i] == b[i]
    ensures XSum(a, n) == XSum(b, n)
  {
    if n > 0 { XSumSame(a, b, n - 1); }
  }

  lemma AddedSum(a: seq<byte>, b: seq<byte>, i: nat, s: nat, t: nat)
    requires i < |a| && i < |b| && a[i] == b[i] && s < 0x10000 && t < 0x10000
    ensures AddByteAt(a, i, s) == AddByteAt(b, i, t) <==> s == t
  {
    StepSum(s, t, a[i]);
  }

  lemma AddedByte(a: seq<byte>, b: seq<byte>, i: nat, s: nat)
    requires i < |a| && i < |b| && s < 0x10000
    ensures AddByteAt(a, i, s) == AddByteAt(b, i, s) <==> a[i] == b[i]
  {
    StepByte(s, a[i], b[i]);
  }

  /** Sets that differ in one byte outside that field have different sums. */
  lemma {:induction false} XSumDiffers(a: seq<byte>, b: seq<byte>, n: nat, j: nat)
    requires j < n <= |a| && n <= |b| && j != SET_SUM && j != SET_SUM + 1 && a[j] != b[j]
    requires forall i | 0 <= i < n && i != j && i != SET_SUM && i != SET_SUM + 1 :: a[i] == b[i]
    ensures XSum(a, n) != XSum(b, n)
  {
    XSumBound(a, n - 1);
    XSumBound(b, n - 1);
    if j < n - 1 {
      XSumDiffers(a, b, n - 1, j);
      if n - 1 != SET_SUM && n - 1 != SET_SUM + 1 { AddedSum(a, b, n - 1, XSum(a, n - 1), XSum(b, n - 1)); }
    } else {
      XSumSame(a, b, n - 1);
      AddedByte(a, b, n - 1, XSum(a, n - 1));
    }
  }

  /** The set of a file "A" with no clusters and no dates. */
  predicate IsSetOfA(b: seq<byte>) {
    && |b| == 96 && b[0] == 0x85 && b[1] == 2 && b[4] == 0x20
    && b[32] == 0xC0 && b[33] == 1 && b[35] == 1 && b[36] == 0x20 && b[37] == 0x80 && b[64] == 0xC1 && b[66] == 0x41
    && forall i | 5 <= i < 96 && i !in {32, 33, 35, 36, 37, 64, 66} :: b[i] == 0
  }

  /** Its sum, entry by entry. */
  lemma SumOfA(b: seq<byte>)
    requires IsSetOfA(b)
    ensures XSum(b, 2) == 0x8044 && XSum(b, 96) == 0x3166
  {
    StartOfA(b, 1);
    HeadOfA(b);
    FirstOfA(b, 32);
    SecondOfA(b);
    ThirdOfA(b);
  }

  /** One byte further: the sum is rotated right by one bit and the byte added. */
  lemma XSumStep(b: seq<byte>, n: nat, k: nat)
    requires n < |b| && n != SET_SUM && n != SET_SUM + 1 && k < 16
    ensures XSum(b, n + 1) == (RotRight(XSum(b, n), 0x8000) + b[n]) % 0x10000
    ensures TestBit(RotRight(XSum(b, n), 0x8000), k) == TestBit(XSum(b, n), (k + 1) % 16)
  {
    XSumBound(b, n);
    Rotated16(XSum(b, n), 15, k);
  }

  lemma Rotated16(s: nat, n: nat, k: nat)
    requires s < 0x10000 && n == 15 && k < 16
    ensures TestBit(RotRight(s, 0x8000), k) == TestBit(s, (k + 1) % 16)
  {
    assert Pow2(n) == 0x8000;
    RotRightBits(s, n, k);
  }

  /** One byte further, with the value. */
  lemma XSumNext(b: seq<byte>, n: nat, s: nat, r: nat)
    requires n < |b| && n != SET_SUM && n != SET_SUM + 1 && XSum(b, n) == s < 0x10000
    requires var t := s / 2 + (if s % 2 == 1 then 0x8000 else 0) + b[n]; r == if t < 0x10000 then t else t - 0x10000
    ensures XSum(b, n + 1) == r
  {
    StepIs(s, b[n], s / 2 + (if s % 2 == 1 then 0x8000 else 0) + b[n]);
  }

  /** A zero turns the sum. */
  lemma XSumZero(b: seq<byte>, n: nat, a: nat, r: nat)
    requires SET_SUM + 1 < n < |b| && b[n] == 0 && a < 0x8000 && r < 2 && XSum(b, n) == 2 * a + r
    ensures XSum(b, n + 1) == a + 0x8000 * r
  {
    StepIs(2 * a + r, 0, a + 0x8000 * r);
  }

  lemma XSumZeros2(b: seq<byte>, n: nat, a: nat, r: nat)
    requires SET_SUM + 1 < n && n + 2 <= |b| && b[n] == 0 && b[n + 1] == 0
    requires a < 0x4000 && r < 4 && XSum(b, n) == 4 * a + r
    ensures XSum(b, n + 2) == a + 0x4000 * r
  {
    var hi, lo := r / 2, r % 2;
    XSumZero(b, n, 2 * a + hi, lo);
    XSumZero(b, n + 1, a + 0x4000 * lo, hi);
  }

  lemma XSumZeros4(b: seq<byte>, n: nat, a: nat, r: nat)
    requires SET_SUM + 1 < n && n + 4 <= |b| && forall k | n <= k < n + 4 :: b[k] == 0
    requires a < 0x1000 && r < 16 && XSum(b, n) == 16 * a + r
    ensures XSum(b, n + 4) == a + 0x1000 * r
  {
    var hi, lo := r / 4, r % 4;
    XSumZeros2(b, n, 4 * a + hi, lo);
    XSumZeros2(b, n + 2, a + 0x1000 * lo, hi);
  }

  /** Eight zeros swap the bytes of the sum. */
  lemma XSumZeros8(b: seq<byte>, n: nat, a: nat, r: nat)
    requires SET_SUM + 1 < n && n + 8 <= |b| && forall k | n <= k < n + 8 :: b[k] == 0
    requires a < 0x100 && r < 0x100 && XSum(b, n) == 0x100 * a + r
    ensures XSum(b, n + 8) == a + 0x100 * r
  {
    var hi, lo := r / 16, r % 16;
    XSumZeros4(b, n, 16 * a + hi, lo);
    XSumZeros4(b, n + 4, a + 0x100 * lo, hi);
  }

  /** So 24 do. */
  lemma XSumZeros24(b: seq<byte>, n: nat, a: nat, r: nat)
    requires SET_SUM + 1 < n && n + 24 <= |b| && forall k | n <= k < n + 24 :: b[k] == 0
    requires a < 0x100 && r < 0x100 && XSum(b, n) == 0x100 * a + r
    ensures XSum(b, n + 24) == a + 0x100 * r
  {
    XSumZeros8(b, n, a, r);
    XSumZeros8(b, n + 8, r, a);
    XSumZeros8(b, n + 16, a, r);
  }

  lemma FieldSkipped(b: seq<byte>)
    requires |b| >= 4
    ensures XSum(b, 4) == XSum(b, 2)
  {
    assert XSum(b, 4) == XSum(b, 3);
  }

  lemma SumOfOne(b: seq<byte>, i: nat)
    requires |b| > 0 && i == 1
    ensures XSum(b, i) == b[0]
  {
    StepIs(0, b[0], b[0]);
  }

  lemma StartOfA(b: seq<byte>, i: nat)
    requires |b| >= 2 && b[0] == 0x85 && b[1] == 2 && i == 1
    ensures XSum(b, i + 1) == 0x8044
  {
    SumOfOne(b, i);
    XSumNext(b, i, 0x85, 0x8044);
  }

  lemma HeadOfA(b: seq<byte>)
    requires |b| >= 5 && b[4] == 0x20 && XSum(b, 2) == 0x8044
    ensures XSum(b, 5) == 0x4042
  {
    FieldSkipped(b);
    XSumNext(b, 4, 0x8044, 0x4042);
  }

  lemma FirstOfA(b: seq<byte>, i: nat)
    requires IsSetOfA(b) && i == 32 && XSum(b, i - 27) == 0x4042
    ensures XSum(b, i) == 0x0848
  {
    XSumZeros24(b, i - 27, 0x40, 0x42);
    XSumZeros2(b, i - 3, 0x1090, 0);
    XSumZero(b, i - 1, 0x0848, 0);
  }

  lemma SecondOfA(b: seq<byte>)
    requires IsSetOfA(b) && XSum(b, 32) == 0x0848
    ensures XSum(b, 38) == 0x70B7
  {
    XSumNext(b, 32, 0x0848, 0x04E4);
    XSumNext(b, 33, 0x04E4, 0x0273);
    XSumNext(b, 34, 0x0273, 0x8139);
    XSumNext(b, 35, 0x8139, 0xC09D);
    XSumNext(b, 36, 0xC09D, 0xE06E);
    XSumNext(b, 37, 0xE06E, 0x70B7);
  }

  lemma ThirdOfA(b: seq<byte>)
    requires IsSetOfA(b) && XSum(b, 38) == 0x70B7
    ensures XSum(b, 96) == 0x3166
  {
    XSumZeros24(b, 38, 0x70, 0xB7);
    XSumZeros2(b, 62, 0x2DDC, 0);
    XSumNext(b, 64, 0x2DDC, 0x17AF);
    XSumNext(b, 65, 0x17AF, 0x8BD7);
    XSumNext(b, 66, 0x8BD7, 0xC62C);
    XSumZeros24(b, 67, 0xC6, 0x2C);
    XSumZeros4(b, 91, 0x02CC, 6);
    XSumZero(b, 95, 0x3166, 0);
  }

  method XdirSum(dir: seq<byte>) returns (sum: nat)
    requires |dir| == BUFFER && Entries(dir) <= 19
    ensures sum == XSum(dir, Entries(dir) * SZDIRE)
  {
    var size := Entries(dir) * SZDIRE;
    var i: nat := 0;
    sum := 0;
    while i < size
      invariant i <= size && i != SET_SUM + 1 && sum == XSum(dir, i)
    {
      if i == SET_SUM {
        i := i + 1;
      } else {
        sum := (sum / 2 + sum % 2 * 0x8000 + dir[i]) % 0x10000;
      }
      i := i + 1;
    }
  }

  /** The sum after the two bytes of one more unit. */
  function AddUnit(up: nat -> nat, w: nat, sum: nat): (r: nat)
    ensures r < 0x10000
  {
    var chr := up(w) % 0x10000;
    var s := (sum / 2 + sum % 2 * 0x8000 + chr % 0x100) % 0x10000;
    (s / 2 + s % 2 * 0x8000 + chr / 0x100) % 0x10000
  }

  /** `xname_sum`: over the two bytes of each upper-cased unit. */
  function NameSum(up: nat -> nat, name: seq<nat>): (r: nat)
    ensures r < 0x10000
  {
    if name == [] then 0 else AddUnit(up, name[|name| - 1], NameSum(up, name[..|name| - 1]))
  }

  lemma {:induction false} NameSumSame(up: nat -> nat, a: seq<nat>, b: seq<nat>)
    requires SameName(up, a, b)
    ensures NameSum(up, a) == NameSum(up, b)
  {
    if a != [] {
      NameSumSame(up, a[..|a| - 1], b[..|b| - 1]);
    }
  }

  lemma AddUnitSum(up: nat -> nat, w: nat, x: nat, s: nat, t: nat)
    requires s < 0x10000 && t < 0x10000 && up(w) == up(x)
    ensures AddUnit(up, w, s) == AddUnit(up, x, t) <==> s == t
  {
    var lo, hi := up(w) % 0x10000 % 0x100, up(w) % 0x10000 / 0x100;
    StepSum(s, t, lo);
    StepSum((s / 2 + s % 2 * 0x8000 + lo) % 0x10000, (t / 2 + t % 2 * 0x8000 + lo) % 0x10000, hi);
  }

  /** Two units with one byte in common. */
  predicate HalfAlike(u: nat, v: nat) {
    u != v && (u % 0x100 == v % 0x100 || u / 0x100 == v / 0x100)
  }

  lemma NameSumCarried(up: nat -> nat, a: seq<nat>, b: seq<nat>, n: nat)
    requires |a| == |b| == n + 1 && up(a[n]) == up(b[n])
    ensures NameSum(up, a) == NameSum(up, b) <==> NameSum(up, a[..n]) == NameSum(up, b[..n])
  {
    AddUnitSum(up, a[n], b[n], NameSum(up, a[..n]), NameSum(up, b[..n]));
  }

  /**
   Two units lead from the rotated sum `r` to the same sum: the low byte and twice the high byte add up to the same. If
   the low byte of one of them alone makes a carry, this comes to one more or one less, as an odd bit goes round.
   */
  predicate Clash(r: nat, u: nat, v: nat) {
    var x, y := r + u % 0x100, r + v % 0x100;
    if (x < 0x10000) == (y < 0x10000) then u % 0x100 + 2 * (u / 0x100) == v % 0x100 + 2 * (v / 0x100)
    else if y < 0x10000 then CarryClash(u, v, x, y)
    else CarryClash(v, u, y, x)
  }

  predicate CarryClash(u: nat, v: nat, x: nat, y: nat) {
    && x % 2 != y % 2
    && u % 0x100 + 2 * (u / 0x100) + (if x % 2 == 0 then 1 else -1) == v % 0x100 + 2 * (v / 0x100)
  }

  /** The second step, from the sums after the low bytes. */
  lemma SecondStep(x: nat, y: nat, h: byte, k: byte)
    requires x < 0x10000 && y < 0x10000
    ensures (x / 2 + x % 2 * 0x8000 + h) % 0x10000 == (y / 2 + y % 2 * 0x8000 + k) % 0x10000 <==>
              var d := x / 2 - y / 2 + (x % 2 - y % 2) * 0x8000 + h as int - k as int;
              d == 0 || d == 0x10000 || d == -0x10000
  {
    StepIs(x, h, x / 2 + (if x % 2 == 1 then 0x8000 else 0) + h);
    StepIs(y, k, y / 2 + (if y % 2 == 1 then 0x8000 else 0) + k);
  }

  lemma AddUnitClash(up: nat -> nat, w: nat, x: nat, s: nat)
    requires s < 0x10000
    ensures AddUnit(up, w, s) == AddUnit(up, x, s) <==>
              Clash(RotRight(s, 0x8000), up(w) % 0x10000, up(x) % 0x10000)
  {
    var u, v := up(w) % 0x10000, up(x) % 0x10000;
    var r := s / 2 + s % 2 * 0x8000;
    var p := TwoSteps(up, w, s, r, u, u % 0x100, u / 0x100);
    var q := TwoSteps(up, x, s, r, v, v % 0x100, v / 0x100);
    UnitClash(s, r, u, v, u % 0x100, u / 0x100, v % 0x100, v / 0x100, p, q);
  }

  lemma TwoSteps(up: nat -> nat, w: nat, s: nat, r: nat, u: nat, lo: byte, hi: byte) returns (p: nat)
    requires u == up(w) % 0x10000 && lo as int == u % 0x100 && hi as int == u / 0x100 && r == s / 2 + s % 2 * 0x8000
    ensures p == (r + lo) % 0x10000 && AddUnit(up, w, s) == (p / 2 + p % 2 * 0x8000 + hi) % 0x10000
  {
    p := (s / 2 + s % 2 * 0x8000 + lo) % 0x10000;
  }

  lemma UnitClash(s: nat, r: nat, u: nat, v: nat, lo: byte, hi: byte, lo': byte, hi': byte,
                  p: nat, q: nat)
    requires s < 0x10000 && r == s / 2 + s % 2 * 0x8000 && u < 0x10000 && v < 0x10000
    requires lo as int == u % 0x100 && hi as int == u / 0x100 && lo' as int == v % 0x100 && hi' as int == v / 0x100
    requires p == (r + lo) % 0x10000 && q == (r + lo') % 0x10000
    ensures (p / 2 + p % 2 * 0x8000 + hi) % 0x10000 == (q / 2 + q % 2 * 0x8000 + hi') % 0x10000 <==> Clash(r, u, v)
  {
    StepIs(s, lo, r + lo);
    StepIs(s, lo', r + lo');
    SecondStep(p, q, hi, hi');
    Rests(p, q, lo as int - lo' as int, hi as int - hi' as int);
  }

  /** Which differences come back to the same sum. */
  lemma Rests(x: nat, y: nat, l: int, h: int)
    requires x < 0x10000 && y < 0x10000 && -0x100 < l < 0x100 && -0x100 < h < 0x100
    requires x - y in {l, l - 0x10000, l + 0x10000}
    ensures var d := x / 2 - y / 2 + (x % 2 - y % 2) * 0x8000 + h;
            d == 0 || d == 0x10000 || d == -0x10000 <==>
              if x - y == l then l + 2 * h == 0
              else if x - y == l - 0x10000 then x % 2 != y % 2 && l + 2 * h + (if x % 2 == 0 then 1 else -1) == 0
              else x % 2 != y % 2 && -l - 2 * h + (if y % 2 == 0 then 1 else -1) == 0
  {
  }

  /** Names that differ in one unit have the same hash exactly if the two units clash after what is before them. */
  lemma {:induction false} NameSumDiffers(up: nat -> nat, a: seq<nat>, b: seq<nat>, j: nat)
    requires |a| == |b| && j < |a| && forall i | 0 <= i < |a| && i != j :: up(a[i]) == up(b[i])
    ensures NameSum(up, a) == NameSum(up, b) <==>
              Clash(RotRight(NameSum(up, a[..j]), 0x8000), up(a[j]) % 0x10000, up(b[j]) % 0x10000)
  {
    var n := |a| - 1;
    if j < n {
      NameSumDiffers(up, a[..n], b[..n], j);
      assert a[..n][..j] == a[..j];
      NameSumCarried(up, a, b, n);
    } else {
      NameSumSame(up, a[..n], b[..n]);
      NameSumLast(up, a, b, n);
    }
  }

  lemma NameSumLast(up: nat -> nat, a: seq<nat>, b: seq<nat>, n: nat)
    requires |a| == |b| == n + 1 && NameSum(up, a[..n]) == NameSum(up, b[..n])
    ensures NameSum(up, a) == NameSum(up, b) <==>
              Clash(RotRight(NameSum(up, a[..n]), 0x8000), up(a[n]) % 0x10000, up(b[n]) % 0x10000)
  {
    AddUnitClash(up, a[n], b[n], NameSum(up, a[..n]));
  }

  lemma NeverClash(r: nat, u: nat, v: nat)
    requires r < 0x10000 && HalfAlike(u, v)
    ensures !Clash(r, u, v)
  {
  }

  /** So the hash tells names apart that differ in one unit, if the upper-cased units have a byte in common. */
  lemma NameSumApart(up: nat -> nat, a: seq<nat>, b: seq<nat>, j: nat)
    requires |a| == |b| && j < |a| && forall i | 0 <= i < |a| && i != j :: up(a[i]) == up(b[i])
    requires HalfAlike(up(a[j]) % 0x10000, up(b[j]) % 0x10000)
    ensures NameSum(up, a) != NameSum(up, b)
  {
    NameSumDiffers(up, a, b, j);
    NeverClash(RotRight(NameSum(up, a[..j]), 0x8000), up(a[j]) % 0x10000, up(b[j]) % 0x10000);
  }

  /** The hash of "A", and two names of one unit, with no byte in common, that have the same one. */
  lemma NameSumKnown(up: nat -> nat, a: seq<nat>, b: seq<nat>, c: seq<nat>)
    requires |a| == 1 && a[0] == 0x41 && |b| == 1 && b[0] == 0x4002 && |c| == 1 && c[0] == 0x4100
    requires up(a[0]) == a[0] && up(b[0]) == b[0] && up(c[0]) == c[0]
    ensures NameSum(up, a) == 0x8020 && NameSum(up, b) == NameSum(up, c) == 0x41
  {
    AddUnitIs(up, 0x41, 0, 0x41, 0x8020);
    AddUnitIs(up, 0x4002, 0, 2, 0x41);
    AddUnitIs(up, 0x4100, 0, 0, 0x41);
  }

  /** One more unit, with the sums before it, after its first byte and after both. */
  lemma AddUnitIs(up: nat -> nat, u: nat, z: nat, s: nat, r: nat)
    requires up(u) == u < 0x10000 && z < 0x10000
    requires var t := z / 2 + (if z % 2 == 1 then 0x8000 else 0) + u % 0x100;
             s == if t < 0x10000 then t else t - 0x10000
    requires var t := s / 2 + (if s % 2 == 1 then 0x8000 else 0) + u / 0x100;
             r == if t < 0x10000 then t else t - 0x10000
    ensures AddUnit(up, u, z) == r
  {
    StepIs(z, u % 0x100, z / 2 + (if z % 2 == 1 then 0x8000 else 0) + u % 0x100);
    StepIs(s, u / 0x100, s / 2 + (if s % 2 == 1 then 0x8000 else 0) + u / 0x100);
  }

  method XnameSum(up: nat -> nat, lfn: seq<nat>, ghost name: seq<nat>) returns (sum: nat)
    requires IsName(name) && Buffered(lfn, name)
    ensures sum == NameSum(up, name)
  {
    BufferedUnits(lfn, name);
    sum := 0;
    var i := 0;
    while lfn[i] != 0
      invariant i <= |name| && sum == NameSum(up, name[..i])
      decreases |name| - i
    {
      var chr := up(lfn[i]) % 0x10000;
      assert name[..i + 1][..i] == name[..i];
      sum := (sum / 2 + sum % 2 * 0x8000 + chr % 0x100) % 0x10000;
      sum := (sum / 2 + sum % 2 * 0x8000 + chr / 0x100) % 0x10000;
      i := i + 1;
    }
    assert name[..i] == name;
  }

  // ---- building a set ----

  /** Entries for a name, as `dir_register` reserves them. */
  function Reserved(len: nat): nat {
    (len + 14) / 15 + 2
  }

  /** Where unit `i` of the name is: two bytes on, over the head of an entry. */
  function UnitOfs(i: nat): nat
    decreases i, 1
  {
    var next := FieldOfs(i);
    if next % SZDIRE == 0 then next + 2 else next
  }

  function FieldOfs(i: nat): nat
    decreases i, 0
  {
    if i == 0 then 2 * SZDIRE else UnitOfs(i - 1) + 2
  }

  /** Unit `t` of name entry `k`. */
  lemma {:induction false} UnitOfsAt(k: nat, t: nat)
    requires t < 15
    ensures UnitOfs(15 * k + t) == (k + 2) * SZDIRE + 2 + 2 * t
    decreases 15 * k + t
  {
    if t > 0 {
      UnitOfsAt(k, t - 1);
    } else if k > 0 {
      UnitOfsAt(k - 1, 14);
    }
  }

  lemma UnitInside(i: nat, nc1: nat)
    requires i < 15 * nc1 && nc1 <= 17
    ensures 2 * SZDIRE <= UnitOfs(i) && UnitOfs(i) + 1 < (nc1 + 2) * SZDIRE <= BUFFER
  {
    UnitOfsAt(i / 15, i % 15);
    assert i / 15 < nc1 && i == 15 * (i / 15) + i % 15;
  }

  /** Unit `i` of the name field: zeros after the name. */
  function Padded(name: seq<nat>, i: nat): nat {
    if i < |name| then name[i] else 0
  }

  /** The order of entries, their number and the length of the name are right. */
  ghost predicate Structured(b: seq<byte>) {
    && |b| == BUFFER && 3 <= Entries(b) <= 19
    && b[0] == ET_FILEDIR && b[SZDIRE] == ET_STREAM
    && (forall k | 2 <= k < Entries(b) :: b[k * SZDIRE] == ET_FILENAME)
    && MaxDirB(b[NUM_NAME]) <= Entries(b) * SZDIRE
  }

  /** The set names `name`. */
  ghost predicate Names(b: seq<byte>, up: nat -> nat, name: seq<nat>) {
    && |b| == BUFFER && IsName(name)
    && b[NUM_NAME] == |name| && Entries(b) == Reserved(|name|)
    && Word(b[NAME_HASH], b[NAME_HASH + 1]) == NameSum(up, name)
    && forall i | 0 <= i < |name| :: UnitOfs(i) + 1 < |b| && Word(b[UnitOfs(i)], b[UnitOfs(i) + 1]) == name[i]
  }

  /** Put a unit into two bytes. */
  method PutUnit(dirb: array<byte>, o: nat, u: nat)
    requires o + 1 < dirb.Length && u < 0x10000
    modifies dirb
    ensures Word(dirb[o], dirb[o + 1]) == u
    ensures forall j | 0 <= j < dirb.Length && j != o && j != o + 1 :: dirb[j] == old(dirb[j])
  {
    dirb[o] := u % 256;
    dirb[o + 1] := u / 256;
  }

  /** The name part of one entry: the next 15 units, zeros after the name. */
  method FillEntry(lfn: seq<nat>, dirb: array<byte>, k: nat, nlen0: nat, wc0: nat, ghost name: seq<nat>)
    returns (nlen: nat, wc: nat)
    requires dirb.Length == BUFFER && k < 17 && IsName(name) && Buffered(lfn, name)
    requires nlen0 == (if 15 * k < |name| then 15 * k else |name|) && (wc0 == 0 <==> 15 * k > |name|)
    modifies dirb
    ensures nlen == (if 15 * (k + 1) < |name| then 15 * (k + 1) else |name|) && (wc == 0 <==> 15 * (k + 1) > |name|)
    ensures dirb[(k + 2) * SZDIRE] == ET_FILENAME
    ensures forall t | 0 <= t < 15 ::
              Word(dirb[(k + 2) * SZDIRE + 2 + 2 * t], dirb[(k + 2) * SZDIRE + 3 + 2 * t]) == Padded(name, 15 * k + t)
    ensures forall j | 0 <= j < BUFFER && !((k + 2) * SZDIRE <= j < (k + 3) * SZDIRE) :: dirb[j] == old(dirb[j])
  {
    BufferedUnits(lfn, name);
    var base := (k + 2) * SZDIRE;
    dirb[base] := ET_FILENAME;
    dirb[base + 1] := 0;
    nlen, wc := nlen0, wc0;
    var s: nat := 0;
    while s < 15
      invariant s <= 15 && dirb[base] == ET_FILENAME
      invariant nlen == (if 15 * k + s < |name| then 15 * k + s else |name|) && (wc == 0 <==> 15 * k + s > |name|)
      invariant forall t | 0 <= t < s ::
                Word(dirb[base + 2 + 2 * t], dirb[base + 3 + 2 * t]) == Padded(name, 15 * k + t)
      invariant forall j | 0 <= j < BUFFER && !(base <= j < base + SZDIRE) :: dirb[j] == old(dirb[j])
    {
      if wc != 0 {
        wc := lfn[nlen];
        if wc != 0 { nlen := nlen + 1; }
      }
      PutUnit(dirb, base + 2 + 2 * s, wc);
      s := s + 1;
    }
  }

  /** `assert OpenName();` lets the verifier look at the name entries. */
  ghost predicate OpenName(z: int := 0) {
    true
  }

  ghost predicate Filled(b: seq<byte>, name: seq<nat>, k: nat) {
    forall z {:trigger OpenName(z)} :: OpenName(z) ==> FilledTo(b, name, k)
  }

  /** The first `k` name entries are filled. */
  ghost predicate FilledTo(b: seq<byte>, name: seq<nat>, k: nat) {
    && |b| == BUFFER && k <= 17
    && (forall m | 2 <= m < k + 2 :: b[m * SZDIRE] == ET_FILENAME)
    && (forall i | 0 <= i < 15 * k :: UnitOfs(i) + 1 < BUFFER && Word(b[UnitOfs(i)], b[UnitOfs(i) + 1]) == Padded(name, i))
  }

  /** One more name entry. */
  lemma FilledNext(a: seq<byte>, b: seq<byte>, name: seq<nat>, k: nat)
    requires Filled(a, name, k) && k < 17 && |a| == |b| == BUFFER && b[(k + 2) * SZDIRE] == ET_FILENAME
    requires forall t | 0 <= t < 15 ::
              Word(b[(k + 2) * SZDIRE + 2 + 2 * t], b[(k + 2) * SZDIRE + 3 + 2 * t]) == Padded(name, 15 * k + t)
    requires forall j | 0 <= j < BUFFER && !((k + 2) * SZDIRE <= j < (k + 3) * SZDIRE) :: b[j] == a[j]
    ensures Filled(b, name, k + 1) == true
  {
    assert OpenName();
    forall i | 0 <= i < 15 * (k + 1)
      ensures UnitOfs(i) + 1 < BUFFER && Word(b[UnitOfs(i)], b[UnitOfs(i) + 1]) == Padded(name, i)
    {
      UnitInside(i, k + 1);
      if i < 15 * k { UnitInside(i, k); } else { UnitOfsAt(k, i - 15 * k); }
    }
  }

  /** `create_xdir`: the set has the entries that were reserved for it, in order, and names the object. */
  method CreateXdir(dirb: array<byte>, lfn: seq<nat>, up: nat -> nat, ghost name: seq<nat>)
    requires dirb.Length == BUFFER && IsName(name) && Buffered(lfn, name)
    modifies dirb
    ensures Structured(dirb[..]) && Names(dirb[..], up, name)
  {
    BufferedUnits(lfn, name);
    forall j | 0 <= j < 2 * SZDIRE { dirb[j] := 0; }
    dirb[0], dirb[SZDIRE] := ET_FILEDIR, ET_STREAM;
    var nlen: nat, nc1: nat, wc: nat := 0, 0, 1;
    while nc1 == 0 || lfn[nlen] != 0
      invariant nc1 <= 17 && nlen == (if 15 * nc1 < |name| then 15 * nc1 else |name|) && (wc == 0 <==> 15 * nc1 > |name|)
      invariant nc1 <= (|name| + 14) / 15 && Filled(dirb[..], name, nc1) && dirb[0] == ET_FILEDIR && dirb[SZDIRE] == ET_STREAM
      decreases |name| + 15 - 15 * nc1
    {
      ghost var a := dirb[..];
      nlen, wc := FillEntry(lfn, dirb, nc1, nlen, wc, name);
      FilledNext(a, dirb[..], name, nc1);
      nc1 := nc1 + 1;
    }
    var hash := XnameSum(up, lfn, name);
    Finish(dirb, nlen, nc1, hash, up, name);
  }

  /** The counts and the hash. */
  method Finish(dirb: array<byte>, nlen: nat, nc1: nat, hash: nat, ghost up: nat -> nat, ghost name: seq<nat>)
    requires dirb.Length == BUFFER && IsName(name) && nlen == |name| && nc1 == (|name| + 14) / 15 && hash == NameSum(up, name)
    requires Filled(dirb[..], name, nc1) && dirb[0] == ET_FILEDIR && dirb[SZDIRE] == ET_STREAM
    modifies dirb
    ensures Structured(dirb[..]) && Names(dirb[..], up, name)
  {
    assert OpenName();
    ghost var a := dirb[..];
    dirb[NUM_NAME] := nlen;
    dirb[NUM_SEC] := 1 + nc1;
    dirb[NAME_HASH] := hash % 256;
    dirb[NAME_HASH + 1] := hash / 256;
    ghost var b := dirb[..];
    assert forall j | 2 * SZDIRE <= j < BUFFER :: b[j] == a[j];
    forall i | 0 <= i < |name|
      ensures UnitOfs(i) + 1 < BUFFER && Word(b[UnitOfs(i)], b[UnitOfs(i) + 1]) == name[i]
    {
      UnitInside(i, nc1);
      assert Word(a[UnitOfs(i)], a[UnitOfs(i) + 1]) == Padded(name, i);
    }
  }

  // ---- storing and loading ----

  /** Entry `k` of a set. */
  function EntryOf(b: seq<byte>, k: nat): Entry
    requires |b| == BUFFER && k < 19
  {
    b[k * SZDIRE..(k + 1) * SZDIRE]
  }

  /** The set with its checksum. */
  function Summed(b: seq<byte>): (r: seq<byte>)
    requires |b| == BUFFER && Entries(b) <= 19
    ensures |r| == BUFFER && Entries(r) == Entries(b)
    ensures forall i | 0 <= i < BUFFER && i != SET_SUM && i != SET_SUM + 1 :: r[i] == b[i]
  {
    var sum := XSum(b, Entries(b) * SZDIRE);
    b[SET_SUM := sum % 256][SET_SUM + 1 := sum / 256 % 256]
  }

  lemma TwoBytes(w: nat)
    requires w < 0x10000
    ensures Word(w % 256, w / 256 % 256) == w
  {
  }

  /** The sum in the set is its own. */
  lemma SummedIs(b: seq<byte>)
    requires |b| == BUFFER && Entries(b) <= 19
    ensures Word(Summed(b)[SET_SUM], Summed(b)[SET_SUM + 1]) == XSum(Summed(b), Entries(b) * SZDIRE)
  {
    XSumBound(b, Entries(b) * SZDIRE);
    TwoBytes(XSum(b, Entries(b) * SZDIRE));
    XSumSame(b, Summed(b), Entries(b) * SZDIRE);
  }

  /** `store_xdir`: set the sum and write the entries into the directory at `blk`; it fails past the end of the directory. */
  method StoreXdir(dirb: array<byte>, dir: seq<Entry>, blk: nat) returns (ok: bool, r: seq<Entry>)
    requires dirb.Length == BUFFER && Entries(dirb[..]) <= 19
    modifies dirb
    ensures dirb[..] == Summed(old(dirb[..])) && |r| == |dir|
    ensures ok <==> blk + Entries(dirb[..]) <= |dir|
    ensures ok ==> forall k | 0 <= k < |dir| ::
              r[k] == if blk <= k < blk + Entries(dirb[..]) then EntryOf(dirb[..], k - blk) else dir[k]
  {
    var sum := XdirSum(dirb[..]);
    dirb[SET_SUM], dirb[SET_SUM + 1] := sum % 256, sum / 256 % 256;
    assert dirb[..] == Summed(old(dirb[..]));
    var nent := Entries(dirb[..]);
    r := dir;
    var k: nat := 0;
    while k < nent
      invariant k <= nent && |r| == |dir| && (k > 0 ==> blk + k <= |dir|)
      invariant forall j | 0 <= j < |dir| :: r[j] == if blk <= j < blk + k then EntryOf(dirb[..], j - blk) else dir[j]
    {
      if blk + k >= |dir| { return false, r; }
      r := r[blk + k := EntryOf(dirb[..], k)];
      k := k + 1;
    }
    ok := true;
  }

  /** `load_xdir`: read the entries at `blk`, checking order, size and sum. */
  method LoadXdir(dirb: array<byte>, dir: seq<Entry>, blk: nat, ghost b: seq<byte>) returns (ok: bool)
    requires dirb.Length == BUFFER
    modifies dirb
    ensures Stored(dir, blk, b) ==> ok && forall i | 0 <= i < Entries(b) * SZDIRE :: dirb[i] == b[i]
    ensures ok ==> Stored(dir, blk, dirb[..])
  {
    ghost var mine := Stored(dir, blk, b);
    if blk >= |dir| || dir[blk][0] != ET_FILEDIR { return false; }
    ghost var was := dirb[..];
    Put(dirb, 0, dir[blk]);
    LoadedNext(was, dirb[..], dir, blk, 0);
    var n := Entries(dirb[..]);
    if n < 3 || n > 19 { return false; }
    if mine { assert dir[blk] == EntryOf(b, 0) && dir[blk + 1] == EntryOf(b, 1); }
    if blk + 1 >= |dir| || dir[blk + 1][0] != ET_STREAM { return false; }
    was := dirb[..];
    Put(dirb, 1, dir[blk + 1]);
    LoadedNext(was, dirb[..], dir, blk, 1);
    if MaxDirB(dirb[NUM_NAME]) > n * SZDIRE { return false; }
    var k: nat := 2;
    while k < n
      invariant 2 <= k <= n && Entries(dirb[..]) == n && blk + k <= |dir|
      invariant MaxDirB(dirb[NUM_NAME]) <= n * SZDIRE && Loaded(dirb[..], dir, blk, k)
      invariant mine ==> n == Entries(b) && forall i | 0 <= i < k * SZDIRE :: dirb[i] == b[i]
    {
      if mine { assert dir[blk + k] == EntryOf(b, k); }
      if blk + k >= |dir| || dir[blk + k][0] != ET_FILENAME { return false; }
      ghost var was := dirb[..];
      Put(dirb, k, dir[blk + k]);
      LoadedNext(was, dirb[..], dir, blk, k);
      k := k + 1;
    }
    var sum := XdirSum(dirb[..]);
    if mine { XSumSame(dirb[..], b, n * SZDIRE); }
    ok := sum == Word(dirb[SET_SUM], dirb[SET_SUM + 1]);
    if ok { LoadedAll(dirb[..], dir, blk); }
  }

  /** The type byte of entry `m` of a set. */
  function Kind(m: nat): byte {
    if m == 0 then ET_FILEDIR else if m == 1 then ET_STREAM else ET_FILENAME
  }

  /** The first `k` entries of the buffer are those of the directory from `blk` on, of the right types. */
  ghost predicate Loaded(b: seq<byte>, dir: seq<Entry>, blk: nat, k: nat) {
    && |b| == BUFFER && k <= 19 && blk + k <= |dir|
    && forall m | 0 <= m < k :: dir[blk + m] == EntryOf(b, m) && dir[blk + m][0] == Kind(m)
  }

  lemma LoadedNext(a: seq<byte>, b: seq<byte>, dir: seq<Entry>, blk: nat, k: nat)
    requires Loaded(a, dir, blk, k) && k < 19 && blk + k < |dir| && |b| == BUFFER && dir[blk + k][0] == Kind(k)
    requires forall i | 0 <= i < BUFFER ::
               b[i] == if k * SZDIRE <= i < (k + 1) * SZDIRE then dir[blk + k][i - k * SZDIRE] else a[i]
    ensures Loaded(b, dir, blk, k + 1)
  {
    forall m | 0 <= m < k
      ensures EntryOf(b, m) == EntryOf(a, m)
    {
      assert (m + 1) * SZDIRE <= k * SZDIRE;
    }
    assert EntryOf(b, k) == dir[blk + k];
  }

  /** A set that was loaded and passed the tests. */
  lemma LoadedAll(b: seq<byte>, dir: seq<Entry>, blk: nat)
    requires |b| == BUFFER && 3 <= Entries(b) <= 19 && Loaded(b, dir, blk, Entries(b))
    requires MaxDirB(b[NUM_NAME]) <= Entries(b) * SZDIRE && Word(b[SET_SUM], b[SET_SUM + 1]) == XSum(b, Entries(b) * SZDIRE)
    ensures Stored(dir, blk, b)
  {
    forall k | 0 <= k < Entries(b)
      ensures b[k * SZDIRE] == Kind(k) && dir[blk + k] == EntryOf(b, k)
    {
      assert EntryOf(b, k)[0] == b[k * SZDIRE];
    }
    assert b[0 * SZDIRE] == Kind(0) && b[1 * SZDIRE] == Kind(1);
  }

  /** A well-formed set with its own sum is in the directory at `blk`. */
  ghost predicate Stored(dir: seq<Entry>, blk: nat, b: seq<byte>) {
    && Structured(b) && Word(b[SET_SUM], b[SET_SUM + 1]) == XSum(b, Entries(b) * SZDIRE)
    && blk + Entries(b) <= |dir| && forall k | blk <= k < blk + Entries(b) :: dir[k] == EntryOf(b, k - blk)
  }

  /** Copy an entry into the buffer. */
  method Put(dirb: array<byte>, k: nat, e: Entry)
    requires dirb.Length == BUFFER && k < 19
    modifies dirb
    ensures forall i | 0 <= i < BUFFER ::
              dirb[i] == if k * SZDIRE <= i < (k + 1) * SZDIRE then e[i - k * SZDIRE] else old(dirb[i])
  {
    forall i | 0 <= i < SZDIRE { dirb[k * SZDIRE + i] := e[i]; }
  }

  /** What was stored is accepted and loaded again, for any well-formed set. */
  method StoreThenLoad(dirb: array<byte>, dir: seq<Entry>, blk: nat, other: array<byte>) returns (ok: bool)
    requires dirb.Length == BUFFER && other.Length == BUFFER && other != dirb && Structured(dirb[..])
    modifies dirb, other
    ensures dirb[..] == Summed(old(dirb[..]))
    ensures ok <==> blk + Entries(dirb[..]) <= |dir|
    ensures ok ==> forall i | 0 <= i < Entries(dirb[..]) * SZDIRE :: other[i] == dirb[i]
  {
    SummedIs(dirb[..]);
    var r;
    ok, r := StoreXdir(dirb, dir, blk);
    if !ok { return; }
    var accepted := LoadXdir(other, r, blk, dirb[..]);
    ok := accepted;
  }

  /** What a set names does not depend on its sum, nor on what is after its entries. */
  lemma NamesKept(a: seq<byte>, b: seq<byte>, up: nat -> nat, name: seq<nat>)
    requires Names(a, up, name) && |b| == BUFFER
    requires forall i | 0 <= i < Entries(a) * SZDIRE && i != SET_SUM && i != SET_SUM + 1 :: b[i] == a[i]
    ensures Names(b, up, name)
  {
    forall i | 0 <= i < |name|
      ensures UnitOfs(i) + 1 < |b| && Word(b[UnitOfs(i)], b[UnitOfs(i) + 1]) == name[i]
    {
      UnitInside(i, Reserved(|name|) - 2);
    }
  }

  lemma StructuredKept(a: seq<byte>, b: seq<byte>)
    requires Structured(a) && |b| == BUFFER
    requires forall i | 0 <= i < Entries(a) * SZDIRE && i != SET_SUM && i != SET_SUM + 1 :: b[i] == a[i]
    ensures Structured(b)
  {
    assert b[NUM_SEC] == a[NUM_SEC] && b[SZDIRE] == a[SZDIRE] && b[NUM_NAME] == a[NUM_NAME];
    forall k | 2 <= k < Entries(b)
      ensures b[k * SZDIRE] == ET_FILENAME
    {
      assert k * SZDIRE < Entries(a) * SZDIRE;
    }
  }

  /**
   An object is registered and looked for: its set is built, stored and loaded again, and compared with the name
   looked for. It fits exactly where the reserved entries do, still names the object, and is found exactly by the names
   that are the same up to case, its own among them.
   */
  method RegisterThenFind(dirb: array<byte>, lfn: seq<nat>, dir: seq<Entry>, blk: nat, other: array<byte>,
                          lfnbuf: seq<nat>, up: nat -> nat, ghost name: seq<nat>, ghost want: seq<nat>)
    returns (ok: bool, matched: bool)
    requires dirb.Length == BUFFER && other.Length == BUFFER && other != dirb
    requires IsName(name) && Buffered(lfn, name) && IsName(want) && Buffered(lfnbuf, want)
    modifies dirb, other
    ensures ok <==> blk + Reserved(|name|) <= |dir|
    ensures ok ==> Names(other[..], up, name)
    ensures ok && SameName(up, want, name) ==> matched
    ensures ok && UpOk(up) && matched ==> SameName(up, want, name)
  {
    CreateXdir(dirb, lfn, up, name);
    ghost var b := dirb[..];
    matched := false;
    ok := StoreThenLoad(dirb, dir, blk, other);
    if !ok { return; }
    NamesKept(b, other[..], up, name);
    StructuredKept(b, other[..]);
    matched := MatchName(other[..], lfnbuf, up, want);
    AcceptsIff(other[..], lfnbuf, up, want, name);
  }

  // ---- finding a name ----

  /** The units of the name in a set, whatever they are. */
  ghost function UnitOf(b: seq<byte>, i: nat): nat
    requires Structured(b) && i < b[NUM_NAME]
  {
    NameInside(b, i);
    Word(b[UnitOfs(i)], b[UnitOfs(i) + 1])
  }

  lemma NameInside(b: seq<byte>, i: nat)
    requires Structured(b) && i < b[NUM_NAME]
    ensures UnitOfs(i) + 1 < BUFFER
  {
    UnitInside(i, Entries(b) - 2);
  }

  /** The name in the set is what is in the buffer, up to case. */
  ghost predicate Agrees(b: seq<byte>, lfnbuf: seq<nat>, up: nat -> nat)
    requires Structured(b) && |lfnbuf| == MAX_LFN + 1
  {
    (forall i | 0 <= i < b[NUM_NAME] :: up(UnitOf(b, i)) == up(lfnbuf[i])) && lfnbuf[b[NUM_NAME]] == 0
  }

  /** Unit by unit, and then the end of the name. */
  method CompareUnits(dirb: seq<byte>, lfnbuf: seq<nat>, up: nat -> nat) returns (ok: bool)
    requires Structured(dirb) && |lfnbuf| == MAX_LFN + 1
    ensures ok <==> Agrees(dirb, lfnbuf, up)
  {
    var nc: nat, di: nat, ni: nat := dirb[NUM_NAME], 2 * SZDIRE, 0;
    while nc > 0
      invariant nc + ni == dirb[NUM_NAME] && di == FieldOfs(ni)
      invariant forall i | 0 <= i < ni :: up(UnitOf(dirb, i)) == up(lfnbuf[i])
      decreases nc
    {
      if di % SZDIRE == 0 { di := di + 2; }
      NameInside(dirb, ni);
      assert di == UnitOfs(ni) && Word(dirb[di], dirb[di + 1]) == UnitOf(dirb, ni);
      if up(Word(dirb[di], dirb[di + 1])) != up(lfnbuf[ni]) { return false; }
      nc, di, ni := nc - 1, di + 2, ni + 1;
    }
    ok := lfnbuf[ni] == 0;
  }

  /** Names that agree unit by unit, with the terminator in the same place, are the same. */
  lemma SameByUnits(up: nat -> nat, lfnbuf: seq<nat>, want: seq<nat>, name: seq<nat>)
    requires IsName(want) && Buffered(lfnbuf, want) && IsName(name)
    ensures SameName(up, want, name) ==>
              (forall i | 0 <= i < |name| :: up(name[i]) == up(lfnbuf[i])) && lfnbuf[|name|] == 0
    ensures UpOk(up) && (forall i | 0 <= i < |name| :: up(name[i]) == up(lfnbuf[i])) && lfnbuf[|name|] == 0 ==>
              SameName(up, want, name)
  {
    BufferedUnits(lfnbuf, want);
    Unequal0(up, name, if |want| < |name| then |want| else 0);
  }

  lemma Unequal0(up: nat -> nat, name: seq<nat>, k: nat)
    requires IsName(name) && k < |name|
    ensures UpOk(up) ==> up(name[k]) != up(0)
  {
  }

  /** The set is one that a search for `want` stops at. */
  ghost predicate Accepts(b: seq<byte>, lfnbuf: seq<nat>, up: nat -> nat, want: seq<nat>) {
    && Structured(b) && |lfnbuf| == MAX_LFN + 1
    && Word(b[NAME_HASH], b[NAME_HASH + 1]) == NameSum(up, want) && Agrees(b, lfnbuf, up)
  }

  /** The comparison of `dir_find` on exFAT: by hash, then unit by unit. */
  method MatchName(dirb: seq<byte>, lfnbuf: seq<nat>, up: nat -> nat, ghost want: seq<nat>) returns (ok: bool)
    requires Structured(dirb) && IsName(want) && Buffered(lfnbuf, want)
    ensures ok <==> Accepts(dirb, lfnbuf, up, want)
  {
    var hash := XnameSum(up, lfnbuf, want);
    if Word(dirb[NAME_HASH], dirb[NAME_HASH + 1]) != hash { return false; }
    ok := CompareUnits(dirb, lfnbuf, up);
  }

  /** A set that names an object is accepted exactly by the names that are the same up to case. */
  lemma AcceptsIff(b: seq<byte>, lfnbuf: seq<nat>, up: nat -> nat, want: seq<nat>, name: seq<nat>)
    requires Structured(b) && IsName(want) && Buffered(lfnbuf, want) && Names(b, up, name)
    ensures SameName(up, want, name) ==> Accepts(b, lfnbuf, up, want)
    ensures UpOk(up) && Accepts(b, lfnbuf, up, want) ==> SameName(up, want, name)
  {
    forall i | 0 <= i < |name|
      ensures UnitOf(b, i) == name[i]
    {
    }
    if SameName(up, want, name) { NameSumSame(up, want, name); }
    SameByUnits(up, lfnbuf, want, name);
  }

  // ---- the search through a directory ----

  datatype Search = Here | NoFile | Broken

  ghost predicate SetAt(dir: seq<Entry>, i: nat) {
    exists b :: Stored(dir, i, b)
  }

  /** Reading from `i` on arrives at `p`: what is between is whole sets and other entries, none of them the end. */
  ghost predicate Arrives(dir: seq<Entry>, i: nat, p: nat)
    decreases p - i
  {
    if i >= p || i >= |dir| then i == p
    else if dir[i][0] == ET_FILEDIR then SetAt(dir, i) && Arrives(dir, i + dir[i][NUM_SEC] + 1, p)
    else dir[i][0] != 0 && Arrives(dir, i + 1, p)
  }

  /** No set starts between `i` and `at`, and the directory does not end there. */
  ghost predicate Skipped(dir: seq<Entry>, i: nat, at: nat) {
    i <= at <= |dir| && forall k | i <= k < at :: dir[k][0] != ET_FILEDIR && dir[k][0] != 0
  }

  lemma {:induction false} ArrivesAfter(dir: seq<Entry>, i: nat, at: nat, p: nat)
    requires Skipped(dir, i, at) && at <= p
    ensures Arrives(dir, i, p) <==> Arrives(dir, at, p)
    decreases at - i
  {
    if i < at { ArrivesAfter(dir, i + 1, at, p); }
  }

  /** The entry is that of a set. */
  lemma StoredEntries(dir: seq<Entry>, at: nat, b: seq<byte>)
    requires Stored(dir, at, b)
    ensures dir[at][0] == ET_FILEDIR && dir[at][NUM_SEC] + 1 == Entries(b) >= 3
    ensures dir[at + Entries(b) - 1][0] == ET_FILENAME
  {
    var k := Entries(b) - 1;
    assert dir[at] == EntryOf(b, 0) && dir[at + k] == EntryOf(b, k);
    assert EntryOf(b, k)[0] == b[k * SZDIRE];
  }

  /** What is stored at a place is one set. */
  lemma StoredSame(dir: seq<Entry>, at: nat, a: seq<byte>, b: seq<byte>)
    requires Stored(dir, at, a) && Stored(dir, at, b)
    ensures Entries(a) == Entries(b) && forall i | 0 <= i < Entries(a) * SZDIRE :: b[i] == a[i]
  {
    StoredEntries(dir, at, a);
    StoredEntries(dir, at, b);
    forall i | 0 <= i < Entries(a) * SZDIRE
      ensures b[i] == a[i]
    {
      var k := i / SZDIRE;
      assert dir[at + k] == EntryOf(a, k) && dir[at + k] == EntryOf(b, k);
      assert EntryOf(a, k)[i - k * SZDIRE] == a[i] && EntryOf(b, k)[i - k * SZDIRE] == b[i];
    }
  }

  /** From one set to the next: the search goes on from the last entry of a set. */
  lemma ArrivesNext(dir: seq<Entry>, at: nat, b: seq<byte>, p: nat)
    requires Stored(dir, at, b) && at < p
    ensures Arrives(dir, at, p) <==> at + Entries(b) <= p && Arrives(dir, at + Entries(b) - 1, p)
  {
    StoredEntries(dir, at, b);
  }

  /** `dir_read` on exFAT: the next set, loaded; the end; or a set that is not in order. */
  method NextSet(dir: seq<Entry>, dirb: array<byte>, i: nat) returns (res: Search, at: nat)
    requires dirb.Length == BUFFER && i <= |dir|
    modifies dirb
    ensures Skipped(dir, i, at)
    ensures res == Here ==> Stored(dir, at, dirb[..])
    ensures res == NoFile ==> at == |dir| || dir[at][0] == 0
    ensures res == Broken ==> at < |dir| && dir[at][0] == ET_FILEDIR && !SetAt(dir, at)
  {
    at := i;
    while at < |dir|
      invariant Skipped(dir, i, at)
    {
      if dir[at][0] == 0 { return NoFile, at; }
      if dir[at][0] == ET_FILEDIR {
        ghost var b := [];
        if SetAt(dir, at) { b :| Stored(dir, at, b); }
        var ok := LoadXdir(dirb, dir, at, b);
        return if ok then Here else Broken, at;
      }
      at := at + 1;
    }
    res := NoFile;
  }

  /** Set `b` at `p` is one that the search comes to, and it names an object. */
  ghost predicate OnTheWay(dir: seq<Entry>, p: nat, b: seq<byte>, up: nat -> nat, name: seq<nat>) {
    forall i {:trigger OpenWay(i)} :: OpenWay(i) ==> Arrives(dir, 0, p) && Stored(dir, p, b) && Names(b, up, name)
  }

  /** `assert OpenWay();` lets the verifier look at that. */
  ghost predicate OpenWay(i: int := 0) {
    true
  }

  lemma WayStarts(dir: seq<Entry>, p: nat, b: seq<byte>, up: nat -> nat, name: seq<nat>)
    ensures OnTheWay(dir, p, b, up, name) ==> Arrives(dir, 0, p)
    ensures Arrives(dir, 0, p) && Stored(dir, p, b) && Names(b, up, name) ==> OnTheWay(dir, p, b, up, name) == true
  {
    assert OpenWay();
  }

  /** From `i` on the search comes to a set `c`: the one at `p`, or one before it, and to `p` after that. */
  lemma WayStep(dir: seq<Entry>, i: nat, at: nat, p: nat, b: seq<byte>, c: seq<byte>, lfnbuf: seq<nat>, up: nat -> nat,
                want: seq<nat>, name: seq<nat>)
    requires OnTheWay(dir, p, b, up, name) && i <= p && Arrives(dir, i, p) && Skipped(dir, i, at) && Stored(dir, at, c)
    requires IsName(want) && Buffered(lfnbuf, want)
    ensures at <= p
    ensures at == p ==> (SameName(up, want, name) ==> Accepts(c, lfnbuf, up, want))
    ensures at == p ==> (UpOk(up) && Accepts(c, lfnbuf, up, want) ==> SameName(up, want, name))
    ensures at < p ==> at + Entries(c) <= p && Arrives(dir, at + Entries(c) - 1, p)
  {
    assert OpenWay();
    NotPast(dir, i, at, p, b, Here);
    if at == p { AtSet(dir, p, b, c, lfnbuf, up, want, name); } else { ArrivesNext(dir, at, c, p); }
  }

  /** It does not end before `p`. */
  lemma WayGoesOn(dir: seq<Entry>, i: nat, at: nat, p: nat, b: seq<byte>, up: nat -> nat, name: seq<nat>, res: Search)
    requires OnTheWay(dir, p, b, up, name) && i <= p && Arrives(dir, i, p) && Skipped(dir, i, at)
    requires res == NoFile ==> at == |dir| || dir[at][0] == 0
    requires res == Broken ==> at < |dir| && dir[at][0] == ET_FILEDIR && !SetAt(dir, at)
    ensures res == Here
  {
    assert OpenWay();
    NotPast(dir, i, at, p, b, res);
  }

  /**
   `dir_find` on exFAT: set by set until one has the name. Of an object in a directory whose sets are in order up to
   it, this finds the set, or one before it that matches too, if the name looked for is the same up to case, and finds
   it only then.
   */
  method FindSet(dir: seq<Entry>, dirb: array<byte>, lfnbuf: seq<nat>, up: nat -> nat, ghost want: seq<nat>,
                 ghost p: nat, ghost b: seq<byte>, ghost name: seq<nat>)
    returns (res: Search, at: nat)
    requires dirb.Length == BUFFER && IsName(want) && Buffered(lfnbuf, want)
    modifies dirb
    ensures res == Here ==> Stored(dir, at, dirb[..]) && Accepts(dirb[..], lfnbuf, up, want)
    ensures OnTheWay(dir, p, b, up, name) && SameName(up, want, name) ==> res == Here && at <= p
    ensures OnTheWay(dir, p, b, up, name) && UpOk(up) && res == Here && at == p ==> SameName(up, want, name)
    ensures res == Broken ==> at < |dir| && dir[at][0] == ET_FILEDIR && !SetAt(dir, at)
    ensures res == NoFile ==> at == |dir| || (at < |dir| && dir[at][0] == 0)
  {
    ghost var mine := OnTheWay(dir, p, b, up, name);
    WayStarts(dir, p, b, up, name);
    var i: nat := 0;
    while true
      invariant i <= |dir|
      invariant mine && i <= p ==> Arrives(dir, i, p)
      invariant mine && i > p ==> !SameName(up, want, name)
      decreases |dir| - i
    {
      res, at := NextSet(dir, dirb, i);
      if mine && i <= p { WayGoesOn(dir, i, at, p, b, up, name, res); }
      if res != Here { return; }
      if mine && i <= p { WayStep(dir, i, at, p, b, dirb[..], lfnbuf, up, want, name); }
      StoredEntries(dir, at, dirb[..]);
      var ok := MatchName(dirb[..], lfnbuf, up, want);
      if ok { return; }
      i := at + Entries(dirb[..]) - 1;
    }
  }

  /** The next set is not past one that is on the way. */
  lemma NotPast(dir: seq<Entry>, i: nat, at: nat, p: nat, b: seq<byte>, res: Search)
    requires Skipped(dir, i, at) && i <= p && Arrives(dir, i, p) && Stored(dir, p, b)
    requires res == NoFile ==> at == |dir| || dir[at][0] == 0
    requires res == Broken ==> at < |dir| && dir[at][0] == ET_FILEDIR && !SetAt(dir, at)
    ensures res == Here && at <= p && Arrives(dir, at, p)
  {
    StoredEntries(dir, p, b);
    assert SetAt(dir, p);
    if at <= p { ArrivesAfter(dir, i, at, p); }
  }

  lemma AtSet(dir: seq<Entry>, p: nat, b: seq<byte>, c: seq<byte>, lfnbuf: seq<nat>, up: nat -> nat, want: seq<nat>,
              name: seq<nat>)
    requires Stored(dir, p, b) && Stored(dir, p, c) && Names(b, up, name) && IsName(want) && Buffered(lfnbuf, want)
    ensures SameName(up, want, name) ==> Accepts(c, lfnbuf, up, want)
    ensures UpOk(up) && Accepts(c, lfnbuf, up, want) ==> SameName(up, want, name)
  {
    StoredSame(dir, p, b, c);
    NamesKept(b, c, up, name);
    AcceptsIff(c, lfnbuf, up, want, name);
  }

  /** What is at `p` and after it does not matter for arriving there. */
  lemma {:induction false} ArrivesSame(a: seq<Entry>, b: seq<Entry>, i: nat, p: nat)
    requires Arrives(a, i, p) && p <= |a| == |b| && forall k | 0 <= k < p :: b[k] == a[k]
    ensures Arrives(b, i, p)
    decreases p - i
  {
    if i < p {
      if a[i][0] == ET_FILEDIR {
        var c :| Stored(a, i, c);
        StoredEntries(a, i, c);
        ArrivesSame(a, b, i + a[i][NUM_SEC] + 1, p);
        ArrivesBound(a, i + a[i][NUM_SEC] + 1, p);
        assert Stored(b, i, c);
      } else {
        ArrivesSame(a, b, i + 1, p);
      }
    }
  }

  lemma {:induction false} ArrivesBound(dir: seq<Entry>, i: nat, p: nat)
    requires Arrives(dir, i, p)
    ensures i <= p
  {
  }

  lemma StoredOnTheWay(dir: seq<Entry>, r: seq<Entry>, blk: nat, b: seq<byte>, c: seq<byte>, up: nat -> nat,
                       name: seq<nat>)
    requires Structured(b) && Names(b, up, name) && c == Summed(b) && Arrives(dir, 0, blk)
    requires |r| == |dir| && blk + Entries(c) <= |dir|
    requires forall k | 0 <= k < |dir| :: r[k] == if blk <= k < blk + Entries(c) then EntryOf(c, k - blk) else dir[k]
    ensures OnTheWay(r, blk, c, up, name) == true
  {
    SummedIs(b);
    NamesKept(b, c, up, name);
    StructuredKept(b, c);
    ArrivesSame(dir, r, 0, blk);
    WayStarts(r, blk, c, up, name);
  }

  /**
   An object is registered in a directory among others and looked for from the start: it is found, or another one that
   matches comes before it, exactly for the names that are the same up to case.
   */
  method RegisterThenSearch(dirb: array<byte>, lfn: seq<nat>, dir: seq<Entry>, blk: nat, other: array<byte>,
                            lfnbuf: seq<nat>, up: nat -> nat, ghost name: seq<nat>, ghost want: seq<nat>)
    returns (ok: bool, res: Search, at: nat)
    requires dirb.Length == BUFFER && other.Length == BUFFER && other != dirb && Arrives(dir, 0, blk)
    requires IsName(name) && Buffered(lfn, name) && IsName(want) && Buffered(lfnbuf, want)
    modifies dirb, other
    ensures ok <==> blk + Reserved(|name|) <= |dir|
    ensures ok && SameName(up, want, name) ==> res == Here && at <= blk
    ensures ok && UpOk(up) && res == Here && at == blk ==> SameName(up, want, name)
  {
    CreateXdir(dirb, lfn, up, name);
    ghost var b := dirb[..];
    var r;
    ok, r := StoreXdir(dirb, dir, blk);
    res, at := NoFile, 0;
    if !ok { return; }
    StoredOnTheWay(dir, r, blk, b, dirb[..], up, name);
    res, at := FindSet(r, other, lfnbuf, up, want, blk, dirb[..], name);
  }
}
