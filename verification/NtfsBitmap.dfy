/** ntfs-3g's bitmap: single bits in place, and setting a run of bits through a buffer of at most 8 KiB. */
module NtfsBitmap {
  import opened FatCodec
  import opened Bits

  const WINDOW: nat := 8192

  /** `ntfs_bit_get`. */
  predicate BitIn(data: seq<byte>, i: nat)
    requires i < 8 * |data|
  {
    TestBit(data[i / 8], i % 8)
  }

  /** `ntfs_bit_get_and_set`: gives the old value; exactly this bit takes the new one. */
  method BitGetAndSet(bitmap: array<byte>, bit: nat, value: bool) returns (was: bool)
    requires bit < 8 * bitmap.Length
    modifies bitmap
    ensures was == BitIn(old(bitmap[..]), bit)
    ensures forall i | 0 <= i < 8 * bitmap.Length ::
              BitIn(bitmap[..], i) == if i == bit then value else BitIn(old(bitmap[..]), i)
  {
    var j, k := bit / 8, bit % 8;
    was := TestBit(bitmap[j], k);
    ghost var b := bitmap[j];
    FlippedByte(bitmap[j], k);
    if was != value { bitmap[j] := Flipped(bitmap[j], k); }
    forall i | 0 <= i < 8 * bitmap.Length
      ensures BitIn(bitmap[..], i) == if i == bit then value else BitIn(old(bitmap[..]), i)
    {
      FlippedTest(b, k, i % 8);
    }
  }

  /** `ntfs_bit_set`: exactly this bit takes the value. */
  method BitSet(bitmap: array<byte>, bit: nat, value: bool)
    requires bit < 8 * bitmap.Length
    modifies bitmap
    ensures forall i | 0 <= i < 8 * bitmap.Length ::
              BitIn(bitmap[..], i) == if i == bit then value else BitIn(old(bitmap[..]), i)
  {
    ghost var b := bitmap[bit / 8];
    bitmap[bit / 8] := PutBit(bitmap[bit / 8], bit % 8, value);
    forall i | 0 <= i < 8 * bitmap.Length
      ensures BitIn(bitmap[..], i) == if i == bit then value else BitIn(old(bitmap[..]), i)
    {
      PutTest(b, bit % 8, value, i % 8);
    }
  }

  /** The attribute that holds the bitmap; reads and writes are complete or fail. */
  class Attribute {
    var data: seq<byte>

    constructor (data: seq<byte>)
      ensures this.data == data
    {
      this.data := data;
    }

    method ReadByte(pos: nat) returns (ok: bool, b: byte)
      ensures ok ==> pos < |data| && b == data[pos]
    {
      ok, b := *, 0;
      ok := ok && pos < |data|;
      if ok { b := data[pos]; }
    }

    method Write(pos: nat, bytes: seq<byte>) returns (ok: bool)
      modifies this
      ensures |data| == |old(data)| && (ok ==> pos + |bytes| <= |data|)
      ensures ok ==> forall j | 0 <= j < |data| ::
                data[j] == if pos <= j < pos + |bytes| then bytes[j - pos] else old(data)[j]
    {
      ok := *;
      ok := ok && pos + |bytes| <= |data|;
      if ok {
        data := data[..pos] + bytes + data[pos + |bytes|..];
      } else {
        // a failed write leaves any bytes
        var d: seq<byte> :| |d| == |data|;
        data := d;
      }
    }
  }

  // ---- the run ----

  /** Bit `i` of the result: the value in the run, the old bit outside. */
  ghost predicate Wanted(data: seq<byte>, s: nat, e: nat, value: bool, i: nat)
    requires i < 8 * |data|
  {
    if s <= i < e then value else BitIn(data, i)
  }

  /** Byte `b` is what byte `j` of the bitmap has to become. */
  ghost predicate ByteWanted(data: seq<byte>, s: nat, e: nat, value: bool, j: nat, b: byte)
    requires j < |data|
  {
    forall k | 0 <= k < 8 :: TestBit(b, k) == if s <= 8 * j + k < e then value else TestBit(data[j], k)
  }

  /** A byte of all zeros or all ones. */
  function FullByte(value: bool): byte {
    if value then 0xFF else 0
  }

  lemma FullTest(value: bool, k: nat)
    requires k < 8
    ensures TestBit(FullByte(value), k) == value
  {
    ZeroBits(k);
    OneBits(8, k);
    assert Pow2(8) == 256;
  }

  /** Bytes before `n` are done, the others are as they were. */
  ghost predicate DoneTo(was: seq<byte>, now: seq<byte>, s: nat, e: nat, value: bool, n: nat) {
    && |now| == |was|
    && (forall j | 0 <= j < |now| && j < n :: ByteWanted(was, s, e, value, j, now[j]))
    && (forall j | 0 <= j < |now| && n <= j :: now[j] == was[j])
  }

  /** All bytes up to the end of the run are done: the run is set, and no other bit changed. */
  lemma DoneAll(was: seq<byte>, now: seq<byte>, s: nat, e: nat, value: bool, n: nat)
    requires DoneTo(was, now, s, e, value, n) && e <= 8 * n
    ensures forall i | 0 <= i < 8 * |now| :: BitIn(now, i) == Wanted(was, s, e, value, i)
  {
    forall i | 0 <= i < 8 * |now|
      ensures BitIn(now, i) == Wanted(was, s, e, value, i)
    {
      var j, k := i / 8, i % 8;
      assert i == 8 * j + k;
      if j < n { assert ByteWanted(was, s, e, value, j, now[j]); }
    }
  }

  /** Set bits of the first byte from `bit` on, up to the end of the byte or of the run. */
  method SetFirst(b0: byte, bit: nat, count: nat, value: bool) returns (b: byte, left: int)
    requires 0 < bit < 8
    ensures forall k | 0 <= k < 8 :: TestBit(b, k) == if bit <= k < bit + count then value else TestBit(b0, k)
    ensures left == if count >= 8 - bit then count - (8 - bit) else -1
  {
    b, left := b0, count;
    var at := bit;
    while at % 8 != 0 && left != 0
      decreases left
      invariant bit <= at <= 8 && left == count - (at - bit) >= 0
      invariant forall k | 0 <= k < 8 :: TestBit(b, k) == if bit <= k < at then value else TestBit(b0, k)
    {
      ghost var p := b;
      b := PutBit(b, at, value);
      forall k | 0 <= k < 8
        ensures TestBit(b, k) == if k == at then value else TestBit(p, k)
      {
        PutTest(p, at, value, k);
      }
      at, left := at + 1, left - 1;
    }
    if at % 8 != 0 { left := left - 1; }  // the counter is decremented once more when it is found to be 0
  }

  /** Set the low `bits` bits of the last byte. */
  method SetLast(b0: byte, bits: nat, value: bool) returns (b: byte)
    requires bits <= 8
    ensures forall k | 0 <= k < 8 :: TestBit(b, k) == if k < bits then value else TestBit(b0, k)
  {
    b := b0;
    var bit: nat := bits;
    while bit != 0
      invariant bit <= bits
      invariant forall k | 0 <= k < 8 :: TestBit(b, k) == if bit <= k < bits then value else TestBit(b0, k)
    {
      ghost var p := b;
      bit := bit - 1;
      b := PutBit(b, bit, value);
      forall k | 0 <= k < 8
        ensures TestBit(b, k) == if k == bit then value else TestBit(p, k)
      {
        PutTest(p, bit, value, k);
      }
    }
  }

  lemma FullWanted(data: seq<byte>, s: nat, e: nat, value: bool, j: nat)
    requires j < |data| && s <= 8 * j && 8 * j + 8 <= e
    ensures ByteWanted(data, s, e, value, j, FullByte(value))
  {
    forall k | 0 <= k < 8
      ensures TestBit(FullByte(value), k) == value
    {
      FullTest(value, k);
    }
  }

  /** Write the first `n` bytes of the buffer, all as they have to be, at byte `pos` of the bitmap. */
  method PutWindow(na: Attribute, buf: array<byte>, pos: nat, n: nat,
                   ghost was: seq<byte>, ghost s: nat, ghost e: nat, ghost value: bool) returns (ok: bool)
    requires n <= buf.Length && DoneTo(was, na.data, s, e, value, pos)
    requires forall j | 0 <= j < n && pos + j < |was| :: ByteWanted(was, s, e, value, pos + j, buf[j])
    modifies na
    ensures |na.data| == |was| && (ok ==> pos + n <= |was| && DoneTo(was, na.data, s, e, value, pos + n))
  {
    ok := na.Write(pos, buf[..n]);
    if ok {
      forall j | 0 <= j < |was| && j < pos + n
        ensures ByteWanted(was, s, e, value, j, na.data[j])
      {
        if j >= pos { assert ByteWanted(was, s, e, value, pos + (j - pos), buf[j - pos]); }
      }
    }
  }

  /** Number of bytes for `count` bits, none if the count went below zero. */
  function BytesFor(count: int): nat {
    if count <= 0 then 0 else (count + 7) / 8
  }

  /** Where the loop is: `start` is on a byte boundary, `count` bits are left, the buffer is prepared. */
  ghost predicate Ready(was: seq<byte>, now: seq<byte>, s: nat, e: nat, value: bool,
                        start: nat, count: int, first: nat, size: nat, buf: seq<byte>) {
    && start % 8 == 0 && first <= 1 && 8 * first <= start && s <= start
    && count >= -1 && (count >= 0 ==> start + count == e) && (count == -1 ==> first == 1 && e <= start)
    && size == (if first + BytesFor(count) > WINDOW then WINDOW else first + BytesFor(count)) <= |buf|
    && (forall j | first <= j < size :: buf[j] == FullByte(value))
    && (first == 1 ==> start / 8 - 1 < |was| && ByteWanted(was, s, e, value, start / 8 - 1, buf[0]))
    && DoneTo(was, now, s, e, value, start / 8 - first)
  }

  /** All bytes of the window but a partial last one are as they have to be. */
  lemma WindowWanted(was: seq<byte>, now: seq<byte>, s: nat, e: nat, value: bool,
                     start: nat, count: int, first: nat, size: nat, buf: seq<byte>, j: nat)
    requires Ready(was, now, s, e, value, start, count, first, size, buf)
    requires j < size && start / 8 - first + j < |was| && (count % 8 == 0 || j + 1 < first + BytesFor(count) || j < first)
    ensures ByteWanted(was, s, e, value, start / 8 - first + j, buf[j])
  {
    if j >= first {
      FullWanted(was, s, e, value, start / 8 - first + j);
    }
  }

  /** Up to the loop: the buffer is allocated and filled, a partial first byte is read and edited. */
  method Prepare(na: Attribute, s: nat, count0: nat, value: bool)
    returns (ok: bool, start: nat, count: int, first: nat, size: nat, buf: array<byte>)
    ensures fresh(buf)
    ensures ok ==> Ready(na.data, na.data, s, s + count0, value, start, count, first, size, buf[..])
  {
    var bit := s % 8;
    first := if bit != 0 then 1 else 0;
    size := (count0 - (if bit != 0 then 8 - bit else 0) + 7) / 8 + first;
    if size > WINDOW { size := WINDOW; }
    buf := new byte[size](_ => FullByte(value));
    start, count, ok := s, count0, true;
    if bit != 0 {
      var b;
      ok, b := na.ReadByte(s / 8);
      if !ok { return; }
      buf[0], count := SetFirst(b, bit, count0, value);
      start := (s + 7) / 8 * 8;
    }
  }

  /** A partial last byte inside the window is read, edited and put at the end of the buffer. */
  method PrepareLast(na: Attribute, buf: array<byte>, start: nat, count: nat, first: nat, size: nat, value: bool,
                     ghost was: seq<byte>, ghost s: nat, ghost e: nat) returns (ok: bool)
    requires Ready(was, na.data, s, e, value, start, count, first, size, buf[..]) && buf.Length > 0
    requires count > 0 && count % 8 != 0 && first + BytesFor(count) <= size
    modifies buf
    ensures ok ==> forall j | 0 <= j < size && start / 8 - first + j < |was| ::
              ByteWanted(was, s, e, value, start / 8 - first + j, buf[j])
  {
    var at := (start + count) / 8;
    var b;
    ok, b := na.ReadByte(at);
    if !ok { return; }
    ghost var prepared := buf[..];
    b := SetLast(b, count % 8, value);
    assert at == start / 8 - first + (size - 1);
    buf[size - 1] := b;
    forall j | 0 <= j < size && start / 8 - first + j < |was|
      ensures ByteWanted(was, s, e, value, start / 8 - first + j, buf[j])
    {
      if j < size - 1 {
        WindowWanted(was, na.data, s, e, value, start, count, first, size, prepared, j);
      }
    }
  }

  /** Without a partial last byte in the window the prepared buffer is all there is to write. */
  lemma AllWanted(was: seq<byte>, now: seq<byte>, s: nat, e: nat, value: bool,
                  start: nat, count: int, first: nat, size: nat, buf: seq<byte>)
    requires Ready(was, now, s, e, value, start, count, first, size, buf)
    requires count <= 0 || count % 8 == 0 || size < first + BytesFor(count)
    ensures forall j | 0 <= j < size && start / 8 - first + j < |was| ::
              ByteWanted(was, s, e, value, start / 8 - first + j, buf[j])
  {
    forall j | 0 <= j < size && start / 8 - first + j < |was|
      ensures ByteWanted(was, s, e, value, start / 8 - first + j, buf[j])
    {
      WindowWanted(was, now, s, e, value, start, count, first, size, buf, j);
    }
  }

  /**
   One window: prepare a partial last byte if it is in it, and write the buffer. The position it is
   written at fits the 32-bit variable the source keeps it in.
   */
  method WriteWindow(na: Attribute, buf: array<byte>, start: nat, count: int, first: nat, size: nat, value: bool,
                     ghost was: seq<byte>, ghost s: nat, ghost e: nat) returns (ok: bool, last: nat)
    requires Ready(was, na.data, s, e, value, start, count, first, size, buf[..]) && e / 8 < 0x7FFF_FFFF
    modifies na, buf
    ensures |na.data| == |was| && last <= 1
    ensures last == 1 <==> count > 0 && count % 8 != 0 && first + BytesFor(count) <= size
    ensures ok ==> DoneTo(was, na.data, s, e, value, start / 8 - first + size)
    ensures ok && last == 0 ==> buf[..] == old(buf[..])
  {
    last := 0;
    if count > 0 && count % 8 != 0 {
      var lastPos := (count + 7) / 8 + first;
      if lastPos <= size {
        last := 1;
        ok := PrepareLast(na, buf, start, count, first, size, value, was, s, e);
        if !ok { return; }
      }
    }
    if last == 0 { AllWanted(was, na.data, s, e, value, start, count, first, size, buf[..]); }
    ok := PutWindow(na, buf, start / 8 - first, size, was, s, e, value);
  }

  /** Undo the edit of the first byte of the buffer. */
  method Reset(buf: array<byte>, value: bool)
    requires buf.Length > 0
    modifies buf
    ensures buf[..] == old(buf[..])[0 := FullByte(value)]
  {
    buf[0] := FullByte(value);
  }

  /** After a window without the end of the run: the state for the next one. */
  lemma NextWindow(was: seq<byte>, before: seq<byte>, now: seq<byte>, s: nat, e: nat, value: bool,
                   start: nat, count: int, first: nat, size: nat, buf: seq<byte>, buf': seq<byte>)
    requires Ready(was, before, s, e, value, start, count, first, size, buf)
    requires DoneTo(was, now, s, e, value, start / 8 - first + size)
    requires count - (size - first) * 8 > 0 && (count % 8 == 0 || first + BytesFor(count) > size)
    requires buf' == if first == 1 then buf[0 := FullByte(value)] else buf
    ensures var left := count - (size - first) * 8;
            && size == WINDOW && first <= size
            && Ready(was, now, s, e, value, start + (size - first) * 8, left, 0,
                     if size > (left + 7) / 8 then (left + 7) / 8 else size, buf') == true
  {
  }

  /** The run ends in this window. */
  lemma LastWindow(was: seq<byte>, before: seq<byte>, s: nat, e: nat, value: bool,
                   start: nat, count: int, first: nat, size: nat, buf: seq<byte>, last: nat)
    requires Ready(was, before, s, e, value, start, count, first, size, buf)
    requires last <= 1 && (last == 1 <==> count > 0 && count % 8 != 0 && first + BytesFor(count) <= size)
    ensures size >= first + last
    ensures last == 1 ==> count - count % 8 - (size - first - last) * 8 == 0
    ensures last == 1 || count - (size - first) * 8 <= 0 ==> e <= 8 * (start / 8 - first + size)
  {
  }

  /**
   `ntfs_bitmap_set_bits_in_run`: when it succeeds, bits `start0` to `start0 + count0` have the value and
   every other bit is as it was. The two cases the source reports as bugs cannot happen.
   */
  method SetBitsInRun(na: Attribute, start0: int, count0: int, value: bool) returns (ok: bool)
    requires (start0 + count0) / 8 < 0x7FFF_FFFF
    modifies na
    ensures |na.data| == |old(na.data)|
    ensures start0 < 0 || count0 < 0 ==> !ok && na.data == old(na.data)
    ensures ok ==> forall i | 0 <= i < 8 * |na.data| ::
              BitIn(na.data, i) == Wanted(old(na.data), start0, start0 + count0, value, i)
  {
    if start0 < 0 || count0 < 0 { return false; }
    ghost var was, s, e := na.data, start0, start0 + count0;
    var start: nat, count: int, first: nat, size: nat, buf;
    ok, start, count, first, size, buf := Prepare(na, start0, count0, value);
    if !ok { return; }
    while true
      invariant fresh(buf) && Ready(was, na.data, s, e, value, start, count, first, size, buf[..]) == true
      decreases count
    {
      var last;
      ghost var n, before, b := start / 8 - first + size, na.data, buf[..];
      ok, last := WriteWindow(na, buf, start, count, first, size, value, was, s, e);
      if !ok { return; }
      LastWindow(was, before, s, e, value, start, count, first, size, b, last);
      var left := if last == 1 then count - count % 8 else count;
      var done := (size - first - last) * 8;
      left := left - done;
      assert last == 1 ==> left == 0;
      if left <= 0 {
        DoneAll(was, na.data, s, e, value, n);
        return;
      }
      if first == 1 { Reset(buf, value); }
      NextWindow(was, before, na.data, s, e, value, start, count, first, size, b, buf[..]);
      start, count, first := start + done, left, 0;
      if size > (count + 7) / 8 { size := (count + 7) / 8; }
    }
  }
}
