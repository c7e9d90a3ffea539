/** The sparse image: recording touched sectors, and copying only those to the device. */
module SparseCopy {
  import opened FatCodec
  import opened BitVector

  const SECTOR_SIZE: nat := 512
  const MAX_WRITE_SECTORS: nat := 240

  /** What a step that may fail did; a panic ends the process. */
  datatype Outcome = Done(size: nat) | Failed | Panicked

  // ---- the image file ----

  /** The file after `data` was written at `pos`; a gap before it reads as zeros. */
  function Written(file: seq<byte>, pos: nat, data: seq<byte>): (r: seq<byte>)
    ensures |r| == if pos + |data| > |file| && |data| > 0 then pos + |data| else |file|
    ensures forall i | 0 <= i < |r| ::
              r[i] == if pos <= i < pos + |data| then data[i - pos] else if i < |file| then file[i] else 0
  {
    seq(if pos + |data| > |file| && |data| > 0 then pos + |data| else |file|,
        i requires 0 <= i => if pos <= i < pos + |data| then data[i - pos] else if i < |file| then file[i] else 0)
  }

  /** `s` with indices `lo` to `hi` set. */
  function Filled(s: seq<bool>, lo: nat, hi: nat): (r: seq<bool>)
    ensures |r| == |s| && forall i | 0 <= i < |s| :: r[i] == (s[i] || lo <= i < hi)
  {
    seq(|s|, i requires 0 <= i < |s| => s[i] || lo <= i < hi)
  }

  /** A touched sector starts inside the file, and what is outside touched sectors is zero. */
  ghost predicate Tracks(file: seq<byte>, bits: seq<bool>) {
    && (forall s | 0 <= s < |bits| && bits[s] :: SECTOR_SIZE * s < |file|)
    && (forall i | 0 <= i < |file| :: file[i] == 0 || BitOr0(bits, i / SECTOR_SIZE))
  }

  lemma WrittenTracks(file: seq<byte>, bits: seq<bool>, pos: nat, data: seq<byte>)
    requires Tracks(file, bits) && |data| > 0
    requires var stop := (pos + |data| + SECTOR_SIZE - 1) / SECTOR_SIZE; stop <= |bits|
    ensures var stop := (pos + |data| + SECTOR_SIZE - 1) / SECTOR_SIZE;
            Tracks(Written(file, pos, data), Filled(bits, pos / SECTOR_SIZE, stop))
  {
    var stop := (pos + |data| + SECTOR_SIZE - 1) / SECTOR_SIZE;
    var file', bits' := Written(file, pos, data), Filled(bits, pos / SECTOR_SIZE, stop);
    forall i | 0 <= i < |file'|
      ensures file'[i] == 0 || BitOr0(bits', i / SECTOR_SIZE)
    {
      if pos <= i < pos + |data| {
        assert pos / SECTOR_SIZE <= i / SECTOR_SIZE < stop;
      }
    }
  }

  /** `SparseFile`: a file and a bit for every sector written to. */
  class SparseFile {
    var file: seq<byte>
    var pos: nat
    var bitvec: seq<bool>

    constructor (sectorCount: nat)
      ensures Valid() && file == [] && pos == 0 && |bitvec| == sectorCount
    {
      file, pos, bitvec := [], 0, seq(sectorCount, _ => false);
    }

    ghost predicate Valid()
      reads this
    {
      Tracks(file, bitvec)
    }

    method Seek(to: nat)
      requires Valid()
      modifies this`pos
      ensures Valid() && pos == to
    {
      pos := to;
    }

    /** Write at the position; the file may take only part of the data, or fail. */
    method Write(buf: seq<byte>) returns (r: Outcome)
      requires Valid()
      modifies this
      ensures r.Done? ==> Valid() && r.size <= |buf| && file == Written(old(file), old(pos), buf[..r.size]) && pos == old(pos) + r.size
      ensures r == Failed ==> Valid() && file == old(file) && bitvec == old(bitvec)
      ensures r.Done? ==>
                && |bitvec| == |old(bitvec)|
                && forall s | 0 <= s < |bitvec| ::
                     bitvec[s] == (old(bitvec)[s] || (r.size > 0 && SECTOR_SIZE * s < pos && old(pos) < SECTOR_SIZE * (s + 1)))
      ensures r == Panicked ==> old(pos) + |buf| > SECTOR_SIZE * |old(bitvec)|
    {
      var offset := pos;
      var ok: bool := *;
      if !ok { return Failed; }
      var size: nat :| size <= |buf|;
      if size == 0 {
        assert Written(file, pos, buf[..0]) == file;
        return Done(0);
      }
      ghost var was := file;
      file := Written(file, pos, buf[..size]);
      pos := pos + size;
      var start, stop := offset / SECTOR_SIZE, (offset + size + SECTOR_SIZE - 1) / SECTOR_SIZE;
      if stop > |bitvec| { return Panicked; }
      WrittenTracks(was, bitvec, offset, buf[..size]);
      bitvec := Filled(bitvec, start, stop);
      return Done(size);
    }
  }

  // ---- runs of ones ----

  ghost predicate AllBits(bits: seq<bool>, lo: nat, hi: nat, value: bool) {
    hi <= |bits| && forall i | lo <= i < hi :: bits[i] == value
  }

  /** First index from `from` on whose bit is `value`, or the end. */
  method Position(bits: seq<bool>, from: nat, value: bool) returns (i: nat)
    requires from <= |bits|
    ensures from <= i <= |bits| && AllBits(bits, from, i, !value) && (i < |bits| ==> bits[i] == value)
  {
    i := from;
    while i < |bits| && bits[i] != value
      invariant from <= i <= |bits| && AllBits(bits, from, i, !value)
    {
      i := i + 1;
    }
  }

  datatype Range = None | Some(start: nat, stop: nat)

  /** `BitVecIterOnes`: groups of at most 240 contiguous ones. */
  class OnesIter {
    const bits: seq<bool>
    var pos: nat

    constructor (bits: seq<bool>)
      ensures this.bits == bits && pos == 0
    {
      this.bits, pos := bits, 0;
    }

    ghost predicate Valid()
      reads this
    {
      pos <= |bits|
    }

    method Next() returns (r: Range)
      requires Valid()
      modifies this
      ensures Valid()
      ensures r.None? ==> pos == old(pos) && AllBits(bits, pos, |bits|, false)
      ensures r.Some? ==>
                && old(pos) <= r.start < r.stop == pos <= r.start + MAX_WRITE_SECTORS
                && AllBits(bits, old(pos), r.start, false) && AllBits(bits, r.start, r.stop, true)
                && (r.stop == r.start + MAX_WRITE_SECTORS || r.stop == |bits| || !bits[r.stop])
    {
      var start := Position(bits, pos, true);
      if start == |bits| { return None; }
      var stop := Position(bits, start, false);
      pos := if stop - start > MAX_WRITE_SECTORS then start + MAX_WRITE_SECTORS else stop;
      return Some(start, pos);
    }
  }

  // ---- counting ----

  function CountOnes(bits: seq<bool>): (n: nat)
    ensures n <= |bits|
  {
    if bits == [] then 0 else CountOnes(bits[..|bits| - 1]) + if bits[|bits| - 1] then 1 else 0
  }

  lemma {:induction false} CountRun(bits: seq<bool>, lo: nat, hi: nat, value: bool)
    requires lo <= hi && AllBits(bits, lo, hi, value)
    ensures CountOnes(bits[..hi]) == CountOnes(bits[..lo]) + if value then hi - lo else 0
  {
    if lo < hi {
      CountRun(bits, lo, hi - 1, value);
      assert bits[..hi][..hi - 1] == bits[..hi - 1];
    }
  }

  // ---- the device ----

  function Overwritten(sectors: seq<Sector>, data: seq<byte>, start: nat, count: nat): (r: seq<Sector>)
    requires |data| == SECTOR_SIZE * count && start + count <= |sectors| && AllSized(sectors, SECTOR_SIZE)
    ensures |r| == |sectors| && AllSized(r, SECTOR_SIZE)
    ensures forall s | 0 <= s < |sectors| ::
              r[s] == if start <= s < start + count then SectorIn(data, s - start) else sectors[s]
  {
    var r: seq<Sector> :=
      seq(|sectors|, s requires 0 <= s < |sectors| => if start <= s < start + count then SectorIn(data, s - start) else sectors[s]);
    assert AllSized(r, SECTOR_SIZE) by {
      forall s | 0 <= s < |r|
        ensures |r[s]| == SECTOR_SIZE
      {
        if start <= s < start + count { SectorInSize(data, s - start, count); }
      }
    }
    r
  }

  /** A block device of 512-byte sectors; a write may fail, and then leaves any contents in its sectors. */
  class Device {
    var sectors: seq<Sector>

    ghost predicate Valid()
      reads this
    {
      AllSized(sectors, SECTOR_SIZE)
    }

    constructor (n: nat)
      ensures Valid() && |sectors| == n
    {
      sectors := seq(n, _ => seq(SECTOR_SIZE, _ => 0));
    }

    /** `scsi_write_10` of `count` sectors from `start` on. */
    method Write10(data: seq<byte>, start: nat, count: nat) returns (ok: bool)
      requires Valid() && |data| == SECTOR_SIZE * count
      modifies this
      ensures Valid() && |sectors| == |old(sectors)|
      ensures ok ==> start + count <= |sectors|
      ensures ok ==> forall s | 0 <= s < |sectors| ::
                sectors[s] == if start <= s < start + count then SectorIn(data, s - start) else old(sectors)[s]
      ensures !ok ==> forall s | 0 <= s < |sectors| && !(start <= s < start + count) :: sectors[s] == old(sectors)[s]
    {
      ok := *;
      ok := ok && start + count <= |sectors|;
      if ok {
        sectors := Overwritten(sectors, data, start, count);
      } else {
        Spoil(start, count);
      }
    }

    method Spoil(start: nat, count: nat)
      requires Valid()
      modifies this
      ensures Valid() && |sectors| == |old(sectors)|
      ensures forall s | 0 <= s < |sectors| && !(start <= s < start + count) :: sectors[s] == old(sectors)[s]
    {
      var i := start;
      while i < start + count && i < |sectors|
        invariant Valid() && |sectors| == |old(sectors)| && start <= i
        invariant forall s | 0 <= s < |sectors| && !(start <= s < start + count) :: sectors[s] == old(sectors)[s]
      {
        var blank: Sector := seq(SECTOR_SIZE, _ => 0);
        assert |blank| == SECTOR_SIZE;
        var junk: Sector :| |junk| == SECTOR_SIZE;
        sectors := sectors[i := junk];
        i := i + 1;
      }
    }
  }

  /** Sector `k` of a buffer. */
  function SectorIn(data: seq<byte>, k: nat): (sec: Sector)
    ensures SECTOR_SIZE * (k + 1) <= |data| ==> |sec| == SECTOR_SIZE
  {
    if SECTOR_SIZE * (k + 1) <= |data| then data[SECTOR_SIZE * k..SECTOR_SIZE * (k + 1)] else []
  }

  lemma SectorInSize(data: seq<byte>, k: nat, count: nat)
    requires |data| == SECTOR_SIZE * count && k < count
    ensures |SectorIn(data, k)| == SECTOR_SIZE
  {
  }

  /** Sector `s` of the image, padded with zeros at its end. */
  function ImageSector(file: seq<byte>, s: nat): (sec: Sector)
    ensures |sec| == SECTOR_SIZE
    ensures forall j | 0 <= j < SECTOR_SIZE ::
              sec[j] == if SECTOR_SIZE * s + j < |file| then file[SECTOR_SIZE * s + j] else 0
  {
    seq(SECTOR_SIZE, j requires 0 <= j => if SECTOR_SIZE * s + j < |file| then file[SECTOR_SIZE * s + j] else 0)
  }

  // ---- the copy ----

  /** The first `n` sectors are copied where touched; the rest is as before. */
  ghost predicate Copied(file: seq<byte>, bits: seq<bool>, n: nat, was: seq<Sector>, now: seq<Sector>) {
    && |now| == |was|
    && forall s | 0 <= s < |now| :: now[s] == if s < n && BitOr0(bits, s) then ImageSector(file, s) else was[s]
  }

  /** The buffer for one run: the bytes of the image, and zeros past its end. */
  function RunBuffer(file: seq<byte>, start: nat, count: nat): (data: seq<byte>)
    requires SECTOR_SIZE * start <= |file|
    ensures |data| == SECTOR_SIZE * count
    ensures forall k | 0 <= k < count :: SectorIn(data, k) == ImageSector(file, start + k)
  {
    var from, want := SECTOR_SIZE * start, SECTOR_SIZE * count;
    var size := if from + want > |file| then |file| - from else want;
    var data := file[from..from + size] + seq(want - size, _ => 0);
    assert forall k | 0 <= k < count :: SectorIn(data, k) == ImageSector(file, start + k);
    data
  }

  lemma CopiedNext(file: seq<byte>, bits: seq<bool>, was: seq<Sector>, now: seq<Sector>, now': seq<Sector>, p: nat,
                   start: nat, stop: nat)
    requires Copied(file, bits, p, was, now) && |now'| == |now|
    requires p <= start <= stop && AllBits(bits, p, start, false) && AllBits(bits, start, stop, true)
    requires forall s | 0 <= s < |now| :: now'[s] == if start <= s < stop then ImageSector(file, s) else now[s]
    ensures Copied(file, bits, stop, was, now')
  {
  }

  lemma CopiedAll(file: seq<byte>, bits: seq<bool>, was: seq<Sector>, now: seq<Sector>, p: nat)
    requires Copied(file, bits, p, was, now) && p <= |bits| && AllBits(bits, p, |bits|, false)
    ensures Copied(file, bits, |bits|, was, now)
  {
  }

  /** Copy one run of touched sectors. */
  method CopyRun(file: seq<byte>, ghost bits: seq<bool>, dev: Device, ghost p: nat, start: nat, stop: nat,
                 ghost was: seq<Sector>)
    returns (ok: bool)
    requires dev.Valid() && SECTOR_SIZE * start <= |file| && Copied(file, bits, p, was, dev.sectors)
    requires p <= start <= stop && AllBits(bits, p, start, false) && AllBits(bits, start, stop, true)
    modifies dev
    ensures dev.Valid() && (ok ==> Copied(file, bits, stop, was, dev.sectors))
    ensures |dev.sectors| == |was| && forall s | 0 <= s < |was| && !BitOr0(bits, s) :: dev.sectors[s] == was[s]
  {
    ghost var now := dev.sectors;
    ok := dev.Write10(RunBuffer(file, start, stop - start), start, stop - start);
    if ok {
      CopiedNext(file, bits, was, now, dev.sectors, p, start, stop);
    }
  }

  /**
   `CopyingState`: write every touched sector of the image to the device. The size of the last report
   is the total. A touched sector past the end of the image would be a subtraction below zero.
   */
  method Copy(file: seq<byte>, bits: seq<bool>, dev: Device) returns (r: Outcome, total: nat)
    requires dev.Valid()
    modifies dev
    ensures dev.Valid() && total == SECTOR_SIZE * CountOnes(bits)
    ensures r.Done? ==> Copied(file, bits, |bits|, old(dev.sectors), dev.sectors) && r.size == total
    ensures r == Panicked ==> exists s | 0 <= s < |bits| :: bits[s] && SECTOR_SIZE * s > |file|
    ensures |dev.sectors| == |old(dev.sectors)| && forall s | 0 <= s < |dev.sectors| && !BitOr0(bits, s) ::
              dev.sectors[s] == old(dev.sectors)[s]
  {
    total := SECTOR_SIZE * CountOnes(bits);
    var current := 0;
    var iter := new OnesIter(bits);
    var more := true;
    assert bits[..0] == [];
    while more
      invariant fresh(iter) && iter.Valid() && iter.bits == bits && dev.Valid()
      invariant Copied(file, bits, iter.pos, old(dev.sectors), dev.sectors)
      invariant current == SECTOR_SIZE * CountOnes(bits[..iter.pos])
      invariant !more ==> AllBits(bits, iter.pos, |bits|, false)
      decreases |bits| - iter.pos, more
    {
      ghost var p := iter.pos;
      var range := iter.Next();
      if range.None? {
        more := false;
      } else {
        CountRun(bits, p, range.start, false);
        CountRun(bits, range.start, range.stop, true);
        if SECTOR_SIZE * range.start > |file| { return Panicked, total; }
        var ok := CopyRun(file, bits, dev, p, range.start, range.stop, old(dev.sectors));
        if !ok { return Failed, total; }
        current := current + SECTOR_SIZE * (range.stop - range.start);
      }
    }
    CopiedAll(file, bits, old(dev.sectors), dev.sectors, iter.pos);
    CountRun(bits, iter.pos, |bits|, false);
    assert bits[..|bits|] == bits;
    r := Done(current);
  }

  /**
   The whole transfer: the bit vector of a written image is handed over and the touched sectors are
   copied. It panics on an empty bit vector only, and when it succeeds the device holds the image on every
   touched sector and its old contents elsewhere.
   */
  method Transfer(image: SparseFile, dev: Device) returns (r: Outcome, total: nat)
    requires image.Valid() && dev.Valid()
    modifies dev
    ensures r == Panicked <==> image.bitvec == []
    ensures dev.Valid() && |dev.sectors| == |old(dev.sectors)|
    ensures r.Done? ==> Copied(image.file, image.bitvec, |image.bitvec|, old(dev.sectors), dev.sectors)
    ensures r.Done? ==> r.size == total == SECTOR_SIZE * CountOnes(image.bitvec)
    ensures forall s | 0 <= s < |dev.sectors| && !BitOr0(image.bitvec, s) :: dev.sectors[s] == old(dev.sectors)[s]
  {
    var ok, buf := Forward(image.bitvec);
    if !ok { return Panicked, 0; }
    var bits := Unpack(buf);
    UnpackPack(image.bitvec);
    PaddedCount(image.bitvec, bits);
    r, total := Copy(image.file, bits, dev);
  }

  /** Clear bits past the end do not count. */
  lemma PaddedCount(a: seq<bool>, b: seq<bool>)
    requires |a| <= |b| && forall i | 0 <= i < |b| :: b[i] == BitOr0(a, i)
    ensures CountOnes(b) == CountOnes(a)
  {
    assert b[..|a|] == a && b[..|b|] == b;
    CountRun(b, |a|, |b|, false);
  }

  /** On a device that was blank, the copy is the whole image. */
  lemma BlankDevice(file: seq<byte>, bits: seq<bool>, was: seq<Sector>, now: seq<Sector>)
    requires Tracks(file, bits) && Copied(file, bits, |bits|, was, now) && AllSized(was, SECTOR_SIZE)
    requires forall s, j | 0 <= s < |was| && 0 <= j < SECTOR_SIZE :: was[s][j] == 0
    ensures forall s | 0 <= s < |now| :: now[s] == ImageSector(file, s)
  {
    forall s | 0 <= s < |now|
      ensures now[s] == ImageSector(file, s)
    {
      if !BitOr0(bits, s) {
        forall j | 0 <= j < SECTOR_SIZE
          ensures was[s][j] == ImageSector(file, s)[j]
        {
          var i := SECTOR_SIZE * s + j;
          assert i / SECTOR_SIZE == s;
        }
      }
    }
  }

  // ---- wiping ----

  /** The first `n` sectors are zero, the rest is as before. */
  ghost predicate Wiped(n: nat, was: seq<Sector>, now: seq<Sector>) {
    && |now| == |was|
    && forall s | 0 <= s < |now| :: now[s] == if s < n then ImageSector([], s) else was[s]
  }

  lemma Zeros(data: seq<byte>, k: nat, count: nat)
    requires |data| == SECTOR_SIZE * count && k < count && forall i | 0 <= i < |data| :: data[i] == 0
    ensures SectorIn(data, k) == ImageSector([], k)
  {
    SectorInSize(data, k, count);
  }

  /** `WipingState`: overwrite the whole device with zeros; the last report is the size of the device. */
  method Wipe(dev: Device) returns (r: Outcome)
    requires dev.Valid()
    modifies dev
    ensures dev.Valid() && r != Panicked
    ensures r.Done? ==> Wiped(|dev.sectors|, old(dev.sectors), dev.sectors) && r.size == SECTOR_SIZE * |dev.sectors|
  {
    var total := SECTOR_SIZE * |dev.sectors|;
    var todo: nat, index: nat, current: nat := total, 0, 0;
    var count := MAX_WRITE_SECTORS;
    var buffer: seq<byte> := seq(SECTOR_SIZE * MAX_WRITE_SECTORS, _ => 0);
    while todo > 0
      invariant dev.Valid() && Wiped(index, old(dev.sectors), dev.sectors)
      invariant index <= |dev.sectors| && todo == SECTOR_SIZE * (|dev.sectors| - index) && current + todo == total
      invariant |buffer| == SECTOR_SIZE * count && count > 0 && forall i | 0 <= i < |buffer| :: buffer[i] == 0
    {
      if todo < |buffer| {
        count := todo / SECTOR_SIZE;
        buffer := buffer[..todo];
      }
      ghost var now := dev.sectors;
      var ok := dev.Write10(buffer, index, count);
      if !ok { return Failed; }
      forall s | index <= s < index + count
        ensures dev.sectors[s] == ImageSector([], s)
      {
        Zeros(buffer, s - index, count);
      }
      current := current + |buffer|;
      todo := todo - |buffer|;
      index := index + count;
    }
    r := Done(current);
  }
}
