/** Unaligned reads of a partition through a small cache of sector runs, over a device read in bounded commands. */
module CachedReader {
  import opened Arith
  import opened FatCodec
  import opened FileMap

  const MAX_READ_SECTORS: nat := 0x800     // sectors per SCSI command
  const MAX_CACHED_SECTORS: nat := 8       // longer runs are not cached
  const CACHE_ENTRIES: nat := 1024

  // ---- the device ----

  /** The bytes of `count` blocks from `offset` on. */
  ghost function BlocksAt(blocks: seq<Sector>, offset: nat, count: nat): seq<byte>
    requires offset + count <= |blocks|
  {
    Flat(blocks[offset..offset + count])
  }

  lemma {:induction false} BlocksJoin(blocks: seq<Sector>, offset: nat, a: nat, b: nat)
    requires offset + a + b <= |blocks|
    ensures BlocksAt(blocks, offset, a) + BlocksAt(blocks, offset + a, b) == BlocksAt(blocks, offset, a + b)
  {
    FlatAppend(blocks[offset..offset + a], blocks[offset + a..offset + a + b]);
    assert blocks[offset..offset + a] + blocks[offset + a..offset + a + b] == blocks[offset..offset + (a + b)];
  }

  /** A read-only device of blocks of `blockSize` bytes. */
  class Scsi {
    const blocks: seq<Sector>
    const blockSize: nat

    constructor (blocks: seq<Sector>, blockSize: nat)
      ensures this.blocks == blocks && this.blockSize == blockSize
    {
      this.blocks, this.blockSize := blocks, blockSize;
    }

    /** One command: a block number of 32 bits, a count of 16 bits; it may fail. */
    method Read10(offset: nat, count: nat) returns (ok: bool, data: seq<byte>)
      ensures ok ==> offset + count <= |blocks| && data == BlocksAt(blocks, offset, count)
    {
      ok := *;
      ok := ok && offset < 0x1_0000_0000 && count < 0x1_0000 && offset + count <= |blocks|;
      data := if ok then Flat(blocks[offset..offset + count]) else [];
    }

    /** Any number of blocks, in commands of at most 0x800: the same as one large read. */
    method ReadSectors(offset: nat, count: nat) returns (ok: bool, data: seq<byte>)
      ensures ok && count > 0 ==> offset + count <= |blocks| && data == BlocksAt(blocks, offset, count)
      ensures ok && count == 0 ==> data == []
    {
      data, ok := [], true;
      var at: nat, left: nat := offset, count;
      while left != 0
        invariant left <= count && at + left == offset + count && ok
        invariant at > offset ==> at <= |blocks|
        invariant if at == offset then data == [] else data == BlocksAt(blocks, offset, at - offset)
      {
        var n := if left < MAX_READ_SECTORS then left else MAX_READ_SECTORS;
        var part;
        ok, part := Read10(at, n);
        if !ok { return; }
        if at > offset { BlocksJoin(blocks, offset, at - offset, n); }
        data := data + part;
        at, left := at + n, left - n;
      }
    }
  }

  // ---- the cache ----

  datatype Entry = Entry(offset: nat, count: nat, data: seq<byte>)

  /** What a read of the device gives, the empty run anywhere. */
  ghost predicate IsRead(blocks: seq<Sector>, offset: nat, count: nat, data: seq<byte>) {
    if count == 0 then data == [] else offset + count <= |blocks| && data == BlocksAt(blocks, offset, count)
  }

  ghost predicate EntryOk(blocks: seq<Sector>, e: Entry) {
    e.count <= MAX_CACHED_SECTORS && IsRead(blocks, e.offset, e.count, e.data)
  }

  ghost predicate CacheOk(blocks: seq<Sector>, cache: seq<Entry>) {
    && |cache| <= CACHE_ENTRIES
    && (forall i | 0 <= i < |cache| :: EntryOk(blocks, cache[i]))
    && (forall i, j | 0 <= i < j < |cache| :: cache[i].offset != cache[j].offset || cache[i].count != cache[j].count)
  }

  /** Index of the entry for a run, or the length. */
  method Lookup(cache: seq<Entry>, offset: nat, count: nat) returns (i: nat)
    ensures i <= |cache|
    ensures i < |cache| ==> cache[i].offset == offset && cache[i].count == count
    ensures i == |cache| ==> forall j | 0 <= j < |cache| :: cache[j].offset != offset || cache[j].count != count
  {
    i := 0;
    while i < |cache| && (cache[i].offset != offset || cache[i].count != count)
      invariant i <= |cache| && forall j | 0 <= j < i :: cache[j].offset != offset || cache[j].count != count
    {
      i := i + 1;
    }
  }

  /** The partition as a sequence of bytes. */
  ghost function Partition(blocks: seq<Sector>, start: nat): seq<byte> {
    if start <= |blocks| then Flat(blocks[start..]) else []
  }

  /** `MassStorageComm`. */
  class Reader {
    const scsi: Scsi
    const start: nat       // first block of the partition
    var pos: nat
    var cache: seq<Entry>  // most recently used first

    constructor (scsi: Scsi, start: nat)
      requires scsi.blockSize > 0 && AllSized(scsi.blocks, scsi.blockSize)
      ensures Valid() && this.scsi == scsi && this.start == start && pos == 0
    {
      this.scsi, this.start, pos, cache := scsi, start, 0, [];
    }

    ghost predicate Valid()
      reads this
    {
      scsi.blockSize > 0 && AllSized(scsi.blocks, scsi.blockSize) && CacheOk(scsi.blocks, cache)
    }

    /** `read_sectors`: from the cache if the run is short and there, else from the device. */
    method ReadSectors(offset: nat, count: nat) returns (ok: bool, data: seq<byte>)
      requires Valid()
      modifies this`cache
      ensures Valid() && (ok ==> IsRead(scsi.blocks, offset, count, data))
      ensures count > MAX_CACHED_SECTORS ==> cache == old(cache)
    {
      if count <= MAX_CACHED_SECTORS {
        var i := Lookup(cache, offset, count);
        if i < |cache| {
          data := cache[i].data;
          cache := [cache[i]] + cache[..i] + cache[i + 1..];
          return true, data;
        }
      }
      ok, data := scsi.ReadSectors(offset, count);
      if ok && count <= MAX_CACHED_SECTORS {
        var rest := if |cache| == CACHE_ENTRIES then cache[..CACHE_ENTRIES - 1] else cache;
        cache := [Entry(offset, count, data)] + rest;
      }
    }

    /** `read_exact_at`: `n` bytes of the partition from byte `at` on. */
    method ReadAt(at: nat, n: nat) returns (ok: bool, data: seq<byte>)
      requires Valid()
      modifies this`cache
      ensures Valid()
      ensures ok && n > 0 ==> at + n <= |Partition(scsi.blocks, start)|
      ensures ok ==> |data| == n && (n > 0 ==> data == Partition(scsi.blocks, start)[at..at + n])
    {
      var q, r := Split(at, scsi.blockSize);
      var m, x := Split(r + n + (scsi.blockSize - 1), scsi.blockSize);
      ok, data := ReadSectors(q + start, m);
      if !ok { return; }
      if n > 0 { PartitionBytes(scsi.blocks, scsi.blockSize, start, q, r, m, n, data); }
      EnoughBytes(scsi.blocks, scsi.blockSize, q + start, m, data);
      data := data[r..r + n];
    }

    /** `read`: the same from the position on, which moves past the bytes. */
    method Read(n: nat) returns (ok: bool, data: seq<byte>)
      requires Valid()
      modifies this`cache, this`pos
      ensures Valid() && pos == if ok then old(pos) + n else old(pos)
      ensures ok && n > 0 ==> pos <= |Partition(scsi.blocks, start)|
      ensures ok ==> |data| == n && (n > 0 ==> data == Partition(scsi.blocks, start)[old(pos)..pos])
    {
      ok, data := ReadAt(pos, n);
      if ok { pos := pos + n; }
    }

    /** `seek` from the start. */
    method SeekStart(to: nat)
      requires Valid()
      modifies this`pos
      ensures Valid() && pos == to
    {
      pos := to;
    }

    /** Seek, then read: the bytes of the partition at the place asked for, wherever the position was before. */
    method ReadFrom(offset: nat, n: nat) returns (ok: bool, data: seq<byte>)
      requires Valid()
      modifies this`cache, this`pos
      ensures Valid() && pos == if ok then offset + n else offset
      ensures ok && n > 0 ==> pos <= |Partition(scsi.blocks, start)|
      ensures ok ==> |data| == n && (n > 0 ==> data == Partition(scsi.blocks, start)[offset..pos])
    {
      SeekStart(offset);
      ok, data := Read(n);
    }

    /** `seek` from the current position: the signed offset is taken as a 64-bit unsigned one. */
    method SeekCurrent(delta: int) returns (ok: bool)
      requires Valid() && pos < 0x1_0000_0000_0000_0000
      requires -0x8000_0000_0000_0000 <= delta < 0x8000_0000_0000_0000
      modifies this`pos
      ensures Valid()
      ensures delta >= 0 ==> ok == (old(pos) + delta < 0x1_0000_0000_0000_0000) && (ok ==> pos == old(pos) + delta)
      ensures delta < 0 ==> ok == (old(pos) + delta < 0) && (ok ==> pos == old(pos) + delta + 0x1_0000_0000_0000_0000)
      ensures !ok ==> pos == old(pos)
    {
      var to := pos + if delta >= 0 then delta else delta + 0x1_0000_0000_0000_0000;
      ok := to < 0x1_0000_0000_0000_0000;
      if ok { pos := to; }
    }
  }

  /** Data read is as long as its blocks. */
  lemma {:induction false} EnoughBytes(blocks: seq<Sector>, bs: nat, offset: nat, m: nat, data: seq<byte>)
    requires AllSized(blocks, bs) && IsRead(blocks, offset, m, data)
    ensures |data| == Times(bs, m)
  {
    if m > 0 { FlatLength(blocks[offset..offset + m], bs); }
  }

  /** Bytes `r` to `r + n` of the blocks read are bytes of the partition. */
  lemma {:induction false} PartitionBytes(blocks: seq<Sector>, bs: nat, start: nat, q: nat, r: nat, m: nat, n: nat,
                                          data: seq<byte>)
    requires AllSized(blocks, bs) && bs > 0 && IsRead(blocks, q + start, m, data) && n > 0 && r + n <= Times(bs, m)
    ensures |data| == Times(bs, m) && start <= |blocks|
    ensures Times(bs, q) + r + n <= |Partition(blocks, start)|
    ensures data[r..r + n] == Partition(blocks, start)[Times(bs, q) + r..Times(bs, q) + r + n]
  {
    assert m > 0;
    EnoughBytes(blocks, bs, q + start, m, data);
    var part := blocks[start..];
    FlatSlice(part, bs, q, m);
    assert part[q..q + m] == blocks[q + start..q + start + m];
    SliceOfSlice(Flat(part), Times(bs, q), Times(bs, m), r, n);
  }
}
