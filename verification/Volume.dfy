/** The `FATFS` object: a disk seen through a one-sector write-back window. */
module Volumes {
  import opened Arith
  import opened FatCodec
  import opened Bits

  datatype Status = Fine | DiskErr | IntErr | Denied

  const DISK_ERROR: nat := 0xFFFF_FFFF  // what get_fat, find_bitmap and create_chain return on a disk error
  const INTERNAL_ERROR: nat := 1         // and what they return when the FAT is insane

  function ErrorCode(res: Status): nat {
    if res == IntErr then INTERNAL_ERROR else DISK_ERROR
  }

  const NO_SECTOR: nat := 0xFFFF_FFFF   // winsect when the window holds no sector
  const END_OF_CHAIN: nat := 0xFFFF_FFFF

  /** The fields of `FATFS` that a mount fixes. Sector numbers are absolute. */
  datatype Geometry = Geometry(
    fsType: FsType,
    ss: nat,         // bytes per sector
    nFats: nat,      // copies of the FAT
    fatBase: nat,    // first sector of the first FAT
    fSize: nat,      // sectors per FAT
    nFatent: nat,    // number of clusters + 2
    csize: nat,      // sectors per cluster
    database: nat,   // first sector of cluster 2
    bitBase: nat,    // first sector of the exFAT allocation bitmap
    bitSize: nat     // sectors of the exFAT allocation bitmap
  )

  function MaxEntries(t: FsType): nat {
    match t
    case Fat12 => 0xFF7
    case Fat16 => 0xFFF7
    case Fat32 => 0x0FFF_FFF7
    case ExFat => 0x7FFF_FFFF
  }

  /** What `mount_volume` checks before it accepts a volume. */
  ghost predicate ValidGeometry(g: Geometry) {
    && 512 <= g.ss <= 4096 && g.ss % 4 == 0
    && (g.nFats == 1 || (g.nFats == 2 && g.fsType != ExFat))
    && 3 <= g.nFatent <= MaxEntries(g.fsType)
    && FatBytes(g.fsType, g.nFatent) <= Times(g.ss, g.fSize)
    && 1 <= g.fatBase
    && g.fatBase + g.fSize <= g.database
    && (g.nFats == 2 ==> g.fatBase + 2 * g.fSize <= g.database)
    && 1 <= g.csize
    && (g.fsType == ExFat ==> g.database <= g.bitBase && g.nFatent - 2 <= 8 * Times(g.ss, g.bitSize))
  }

  /** The free-cluster counter says `n`, or that it does not know. */
  predicate CountKnown(g: Geometry, free: nat, n: nat) {
    free == n || free > g.nFatent - 2
  }

  /** The counter says how many clusters are free. */
  predicate Counts(g: Geometry, free: nat) {
    free <= g.nFatent - 2
  }

  /** First sector past the last cluster. */
  function DataEnd(g: Geometry): nat
    requires g.nFatent >= 2
  {
    g.database + Times(g.csize, g.nFatent - 2)
  }

  predicate InFat(g: Geometry, s: int) {
    g.fatBase <= s < g.fatBase + g.fSize
  }

  /** Sectors of the second copy of the FAT; FatFs writes them and never reads them. */
  predicate InMirror(g: Geometry, s: int) {
    g.nFats == 2 && g.fatBase + g.fSize <= s < g.fatBase + 2 * g.fSize
  }

  predicate InBitmap(g: Geometry, s: int) {
    g.fsType == ExFat && g.bitBase <= s < g.bitBase + g.bitSize
  }

  /** Sectors of the FAT and of the allocation bitmap, and the mark for no sector. */
  predicate IsMeta(g: Geometry, s: int) {
    InFat(g, s) || InBitmap(g, s) || s == NO_SECTOR
  }

  /** `assert Open();` lets the verifier look at how window, disk and view hang together. */
  ghost predicate Open(i: int := 0) {
    true
  }

  /** `assert OpenTables();` lets the verifier look at what the tables have to do with the view. */
  ghost predicate OpenTables(i: int := 0) {
    true
  }

  /** Nothing outside `size` sectors from `base` on differs. */
  ghost predicate Only(base: nat, size: nat, v: seq<Sector>, v': seq<Sector>) {
    v' == v ||
    (|v'| == |v| >= base + size && v'[..base] == v[..base] && v'[base + size..] == v[base + size..])
  }

  /** Nothing outside the FAT differs. */
  ghost predicate FatOnly(g: Geometry, v: seq<Sector>, v': seq<Sector>) {
    Only(g.fatBase, g.fSize, v, v')
  }

  /** Nothing outside the allocation bitmap differs. */
  ghost predicate BitmapOnly(g: Geometry, v: seq<Sector>, v': seq<Sector>) {
    Only(g.bitBase, g.bitSize, v, v')
  }

  /** No sector outside the FAT and the bitmap differs. */
  ghost predicate SameData(g: Geometry, v: seq<Sector>, v': seq<Sector>) {
    |v'| == |v| && forall s {:trigger v'[s]} | 0 <= s < |v| && !IsMeta(g, s) :: v'[s] == v[s]
  }

  lemma SameDataTrans(g: Geometry, v: seq<Sector>, v': seq<Sector>, v'': seq<Sector>)
    requires SameData(g, v, v') && SameData(g, v', v'')
    ensures SameData(g, v, v'')
  {
    forall s | 0 <= s < |v| && !IsMeta(g, s)
      ensures v''[s] == v[s]
    {
      assert v'[s] == v[s];
    }
  }

  lemma FatOnlySame(g: Geometry, v: seq<Sector>, v': seq<Sector>)
    requires FatOnly(g, v, v')
    ensures SameData(g, v, v')
  {
    if v' != v {
      var e := g.fatBase + g.fSize;
      forall s | 0 <= s < |v| && !IsMeta(g, s)
        ensures v'[s] == v[s]
      {
        if s < g.fatBase { assert v'[..g.fatBase][s] == v[..g.fatBase][s]; } else { assert v'[e..][s - e] == v[e..][s - e]; }
      }
    }
  }

  lemma BitmapOnlySame(g: Geometry, v: seq<Sector>, v': seq<Sector>)
    requires BitmapOnly(g, v, v') && g.fsType == ExFat
    ensures SameData(g, v, v')
  {
    if v' != v {
      var e := g.bitBase + g.bitSize;
      forall s | 0 <= s < |v| && !IsMeta(g, s)
        ensures v'[s] == v[s]
      {
        if s < g.bitBase { assert v'[..g.bitBase][s] == v[..g.bitBase][s]; } else { assert v'[e..][s - e] == v[e..][s - e]; }
      }
    }
  }

  /** The disk overlaid with a dirty window. */
  function Overlay(disk: seq<Sector>, wflag: bool, winsect: nat, w: Sector): seq<Sector>
    requires wflag ==> winsect < |disk|
  {
    if wflag then disk[winsect := w] else disk
  }

  /** The bytes of `size` sectors from sector `base` on. */
  ghost function Bytes(v: seq<Sector>, base: nat, size: nat): seq<byte>
    requires base + size <= |v|
  {
    Flat(v[base..base + size])
  }

  ghost predicate ViewOk(g: Geometry, v: seq<Sector>) {
    ValidGeometry(g) && AllSized(v, g.ss) && DataEnd(g) <= |v| && (g.fsType == ExFat ==> g.bitBase + g.bitSize <= |v|)
  }

  lemma BytesSize(g: Geometry, v: seq<Sector>, base: nat, size: nat)
    requires ViewOk(g, v) && base + size <= |v|
    ensures AllSized(v[base..base + size], g.ss)
    ensures |Bytes(v, base, size)| == Times(g.ss, size)
  {
    FlatLength(v[base..base + size], g.ss);
  }

  /** Replacing one byte of one sector of a run. */
  lemma PokedBytes(g: Geometry, v: seq<Sector>, base: nat, size: nat, s: nat, o: nat, b: byte)
    requires ViewOk(g, v) && base + size <= |v| && base <= s < base + size && o < g.ss
    ensures Times(g.ss, s - base) + o < |Bytes(v, base, size)|
    ensures Only(base, size, v, Poked(v, s, o, b))
    ensures Bytes(Poked(v, s, o, b), base, size) == Bytes(v, base, size)[Times(g.ss, s - base) + o := b]
  {
    var run := v[base..base + size];
    BytesSize(g, v, base, size);
    FlatPoke(run, g.ss, s - base, o, b);
    assert Poked(v, s, o, b)[base..base + size] == Poked(run, s - base, o, b);
  }

  /** The bytes of the first FAT. */
  ghost function FatOf(g: Geometry, v: seq<Sector>): (f: seq<byte>)
    ensures ViewOk(g, v) ==> |f| == Times(g.ss, g.fSize) >= FatBytes(g.fsType, g.nFatent)
  {
    if ViewOk(g, v) then
      BytesSize(g, v, g.fatBase, g.fSize);
      Bytes(v, g.fatBase, g.fSize)
    else []
  }

  /** The FAT of a volume image as a sequence of entries. */
  ghost function TabOf(g: Geometry, v: seq<Sector>): (t: seq<nat>)
    requires ViewOk(g, v)
    ensures |t| == g.nFatent
  {
    Table(g.fsType, g.nFatent, FatOf(g, v))
  }

  /** The allocation bitmap of a volume image: one bit per cluster, set when it is in use. */
  ghost function BitsIn(g: Geometry, v: seq<Sector>): (bits: seq<bool>)
    requires ViewOk(g, v)
    ensures g.fsType == ExFat ==> |bits| == g.nFatent - 2
  {
    if g.fsType != ExFat then []
    else
      BytesSize(g, v, g.bitBase, g.bitSize);
      BitsOf(Bytes(v, g.bitBase, g.bitSize), g.nFatent - 2)
  }

  /** `tab` and `bits` are the tables in the view. */
  ghost predicate TablesOk(g: Geometry, v: seq<Sector>, tab: seq<nat>, bits: seq<bool>) {
    && (forall i {:trigger OpenTables(i)} :: OpenTables(i) ==> ViewOk(g, v) && tab == TabOf(g, v) && bits == BitsIn(g, v))
    && |tab| == g.nFatent && 3 <= g.nFatent <= MaxEntries(g.fsType)
    && (g.fsType == ExFat ==> |bits| == g.nFatent - 2)
  }

  lemma SamePrefix<T>(a: seq<T>, b: seq<T>, n: nat, lo: nat, hi: nat)
    requires lo <= hi <= n <= |a| && n <= |b| && a[..n] == b[..n]
    ensures a[lo..hi] == b[lo..hi]
  {
    forall i | 0 <= i < hi - lo
      ensures a[lo..hi][i] == b[lo..hi][i]
    {
      assert a[..n][lo + i] == b[..n][lo + i];
    }
  }

  lemma SameSuffix<T>(a: seq<T>, b: seq<T>, n: nat, lo: nat, hi: nat)
    requires n <= lo <= hi <= |a| == |b| && a[n..] == b[n..]
    ensures a[lo..hi] == b[lo..hi]
  {
    forall i | 0 <= i < hi - lo
      ensures a[lo..hi][i] == b[lo..hi][i]
    {
      assert a[n..][lo + i - n] == b[n..][lo + i - n];
    }
  }

  /** An edit of the FAT leaves the bitmap alone. */
  lemma FatOnlyBits(g: Geometry, v: seq<Sector>, v': seq<Sector>)
    requires ViewOk(g, v) && ViewOk(g, v') && FatOnly(g, v, v')
    ensures BitsIn(g, v') == BitsIn(g, v)
  {
    if g.fsType == ExFat && v' != v {
      SameSuffix(v, v', g.fatBase + g.fSize, g.bitBase, g.bitBase + g.bitSize);
    }
  }

  /** An edit of the bitmap leaves the FAT alone. */
  lemma BitmapOnlyTab(g: Geometry, v: seq<Sector>, v': seq<Sector>)
    requires ViewOk(g, v) && ViewOk(g, v') && g.fsType == ExFat && BitmapOnly(g, v, v')
    ensures TabOf(g, v') == TabOf(g, v)
  {
    if v' != v {
      SamePrefix(v, v', g.bitBase, g.fatBase, g.fatBase + g.fSize);
    }
  }

  lemma BitInView(g: Geometry, v: seq<Sector>, tab: seq<nat>, bits: seq<bool>, j: nat, k: nat)
    requires ViewOk(g, v) && TablesOk(g, v, tab, bits) && g.fsType == ExFat
    requires k < 8 && 8 * j + k < g.nFatent - 2 && j < |Bytes(v, g.bitBase, g.bitSize)|
    ensures bits[8 * j + k] == TestBit(Bytes(v, g.bitBase, g.bitSize)[j], k)
  {
    assert OpenTables();
    BytesSize(g, v, g.bitBase, g.bitSize);
    BitsAt(Bytes(v, g.bitBase, g.bitSize), g.nFatent - 2, j, k);
  }

  /** An edit of one bit of the bitmap. */
  lemma PokedBits(g: Geometry, v: seq<Sector>, v': seq<Sector>, j: nat, k: nat, value: bool)
    requires ViewOk(g, v) && ViewOk(g, v') && g.fsType == ExFat && BitmapOnly(g, v, v')
    requires k < 8 && 8 * j + k < g.nFatent - 2 && j < |Bytes(v, g.bitBase, g.bitSize)|
    requires Bytes(v', g.bitBase, g.bitSize) ==
             Bytes(v, g.bitBase, g.bitSize)[j := PutBit(Bytes(v, g.bitBase, g.bitSize)[j], k, value)]
    ensures BitsIn(g, v') == BitsIn(g, v)[8 * j + k := value]
    ensures TabOf(g, v') == TabOf(g, v)
  {
    BitmapOnlyTab(g, v, v');
    var was, now := Bytes(v, g.bitBase, g.bitSize), Bytes(v', g.bitBase, g.bitSize);
    assert BitsIn(g, v) == BitsOf(was, g.nFatent - 2) by { BytesSize(g, v, g.bitBase, g.bitSize); }
    assert BitsIn(g, v') == BitsOf(now, g.nFatent - 2) by { BytesSize(g, v', g.bitBase, g.bitSize); }
    BytesSize(g, v, g.bitBase, g.bitSize);
    BitsPut(was, g.nFatent - 2, j, k, value);
  }

  lemma TablesPokedBit(g: Geometry, v: seq<Sector>, v': seq<Sector>, tab: seq<nat>, bits: seq<bool>, j: nat, k: nat,
                       value: bool)
    requires ViewOk(g, v) && ViewOk(g, v') && g.fsType == ExFat && BitmapOnly(g, v, v')
    requires k < 8 && 8 * j + k < g.nFatent - 2 && j < |Bytes(v, g.bitBase, g.bitSize)|
    requires Bytes(v', g.bitBase, g.bitSize) ==
             Bytes(v, g.bitBase, g.bitSize)[j := PutBit(Bytes(v, g.bitBase, g.bitSize)[j], k, value)]
    requires TablesOk(g, v, tab, bits)
    ensures TablesOk(g, v', tab, bits[8 * j + k := value])
  {
    assert OpenTables();
    PokedBits(g, v, v', j, k, value);
  }

  lemma TablesPokedFat(g: Geometry, v: seq<Sector>, v': seq<Sector>, tab: seq<nat>, bits: seq<bool>)
    requires ViewOk(g, v) && ViewOk(g, v') && FatOnly(g, v, v') && TablesOk(g, v, tab, bits)
    ensures TablesOk(g, v', TabOf(g, v'), bits)
  {
    assert OpenTables();
    FatOnlyBits(g, v, v');
  }

  /** Sectors of the data area, none of them in the bitmap or in the window. */
  predicate PlainRun(g: Geometry, winsect: nat, s: nat, n: nat) {
    && g.database <= s
    && (g.fsType == ExFat ==> s + n <= g.bitBase || g.bitBase + g.bitSize <= s)
    && !(s <= winsect < s + n)
  }

  /** `v` with the sectors from `s` on replaced. */
  function Spliced(v: seq<Sector>, s: nat, data: seq<Sector>): (v': seq<Sector>)
    requires s + |data| <= |v|
    ensures |v'| == |v|
    ensures forall i | 0 <= i < |v| :: v'[i] == if s <= i < s + |data| then data[i - s] else v[i]
  {
    seq(|v|, i requires 0 <= i < |v| => if s <= i < s + |data| then data[i - s] else v[i])
  }

  lemma SplicedOk(g: Geometry, v: seq<Sector>, s: nat, data: seq<Sector>)
    requires ViewOk(g, v) && s + |data| <= |v| && AllSized(data, g.ss)
    ensures ViewOk(g, Spliced(v, s, data))
  {
  }

  /** The FAT lies before the data area. */
  lemma {:induction false} SplicedTab(g: Geometry, v: seq<Sector>, v': seq<Sector>, s: nat)
    requires ViewOk(g, v) && ViewOk(g, v') && g.database <= s <= |v| == |v'| && v'[..s] == v[..s]
    ensures TabOf(g, v') == TabOf(g, v)
  {
    SamePrefix(v, v', s, g.fatBase, g.fatBase + g.fSize);
  }

  /** The bitmap lies before or after the sectors written. */
  lemma {:induction false} SplicedBits(g: Geometry, v: seq<Sector>, v': seq<Sector>, s: nat, e: nat)
    requires ViewOk(g, v) && ViewOk(g, v') && g.fsType == ExFat && s <= e <= |v| == |v'|
    requires v'[..s] == v[..s] && v'[e..] == v[e..] && (e <= g.bitBase || g.bitBase + g.bitSize <= s)
    ensures BitsIn(g, v') == BitsIn(g, v)
  {
    if e <= g.bitBase {
      SameSuffix(v, v', e, g.bitBase, g.bitBase + g.bitSize);
    } else {
      SamePrefix(v, v', s, g.bitBase, g.bitBase + g.bitSize);
    }
  }

  /** Writes to the data area leave the tables alone. */
  lemma {:induction false} SplicedTables(g: Geometry, v: seq<Sector>, winsect: nat, s: nat, data: seq<Sector>,
                                         tab: seq<nat>, bits: seq<bool>)
    requires TablesOk(g, v, tab, bits) && ViewOk(g, v) && s + |data| <= |v| && AllSized(data, g.ss)
    requires PlainRun(g, winsect, s, |data|)
    ensures TablesOk(g, Spliced(v, s, data), tab, bits)
  {
    assert OpenTables();
    SplicedOk(g, v, s, data);
    SplicedTab(g, v, Spliced(v, s, data), s);
    if g.fsType == ExFat && |data| > 0 { SplicedBits(g, v, Spliced(v, s, data), s, s + |data|); }
    if |data| == 0 { assert Spliced(v, s, data) == v; }
  }

  class Volume {
    const g: Geometry
    const win: array<byte>
    var disk: seq<Sector>   // the device; the sectors of the second FAT are kept apart
    var fat2: seq<Sector>   // the sectors of the second FAT
    var winsect: nat
    var wflag: bool
    var freeClst: nat
    var lastClst: nat
    var fsiDirty: bool
    ghost var stale: set<nat>       // first-FAT sectors that the second FAT is not known to have
    ghost var view: seq<Sector>     // the volume as readers of metadata see it
    ghost var tab: seq<nat>         // the FAT entries in the view
    ghost var bits: seq<bool>       // the allocation bitmap in the view

    /** A volume just mounted: the window is over no sector, and nothing is known of the second FAT. */
    constructor (g: Geometry, disk: seq<Sector>, fat2: seq<Sector>, freeClst: nat, lastClst: nat)
      requires ViewOk(g, disk) && |disk| <= NO_SECTOR && (g.nFats == 2 ==> |fat2| == g.fSize)
      ensures Valid() && fresh(win) && this.g == g && this.freeClst == freeClst && this.lastClst == lastClst
      ensures winsect == NO_SECTOR
      ensures view == disk && tab == TabOf(g, disk) && bits == BitsIn(g, disk)
    {
      this.g, this.disk, this.fat2, this.freeClst, this.lastClst := g, disk, fat2, freeClst, lastClst;
      win := new byte[g.ss];
      winsect, wflag, fsiDirty := NO_SECTOR, false, false;
      stale := set s | 0 <= s < |disk| && InFat(g, s);
      view, tab, bits := disk, TabOf(g, disk), BitsIn(g, disk);
    }

    /** Every first-FAT sector that is on the disk and was copied without error is mirrored. */
    ghost predicate Mirrored()
      reads this
      requires g.fatBase + g.fSize <= |disk|
    {
      g.nFats == 2 ==>
        && |fat2| == g.fSize
        && forall k | 0 <= k < g.fSize && g.fatBase + k !in stale && !(wflag && winsect == g.fatBase + k) ::
             fat2[k] == disk[g.fatBase + k]
    }

    /** The window is sound: what it says about the disk, the view and the second FAT. */
    ghost predicate WindowOk()
      reads this, win
    {
      && ViewOk(g, disk)
      && win.Length == g.ss
      && |disk| <= NO_SECTOR
      && !InMirror(g, winsect)
      && Mirrored()
      // a dirty window is over some sector; a clean one agrees with the disk or is over none
      && (wflag ==> winsect < |disk|)
      && (!wflag ==> winsect == NO_SECTOR || (winsect < |disk| && win[..] == disk[winsect]))
      && view == Overlay(disk, wflag, winsect, win[..])
    }

    ghost predicate WindowSealed()
      reads this, win
    {
      forall i {:trigger Open(i)} :: Open(i) ==> WindowOk()
    }

    /**
     The invariant. Only `Open` and `OpenTables` expose how the fields hang together; the comparisons
     with true keep each part a single proof obligation.
     */
    ghost predicate Valid()
      reads this, win
    {
      WindowSealed() == true && TablesOk(g, view, tab, bits) == true
    }

    /** Any contents a sector may have after a failed write. */
    method Junk() returns (sec: Sector)
      ensures |sec| == g.ss
    {
      var blank: Sector := seq(g.ss, _ => 0);
      assert |blank| == g.ss;
      sec :| |sec| == g.ss;
    }

    /** Write the window back if it is dirty, and copy a FAT sector to the second FAT. */
    method SyncWindow() returns (res: Status)
      requires Valid()
      modifies this`disk, this`fat2, this`wflag, this`stale
      ensures Valid()
      ensures res in {Fine, DiskErr}
      ensures res == Fine ==> !wflag
    {
      assert Open();
      res := Fine;
      if wflag { res := WriteBack(); }
    }

    method WriteBack() returns (res: Status)
      requires WindowOk() && wflag
      modifies this`disk, this`fat2, this`wflag, this`stale
      ensures WindowOk()
      ensures res in {Fine, DiskErr}
      ensures res == Fine ==> !wflag
    {
      var junk := Junk();
      var ok: bool := *;
      disk := disk[winsect := if ok then win[..] else junk];
      res := DiskErr;
      if ok {
        if winsect >= g.fatBase && winsect - g.fatBase < g.fSize {
          if g.nFats == 2 { var copied := CopyToMirror(); }
        }
        wflag := false;
        res := Fine;
      }
    }

    /** Write the window to the second FAT too; a failure is not reported. */
    method CopyToMirror() returns (copied: bool)
      requires WindowOk() && g.nFats == 2 && wflag && InFat(g, winsect) && disk[winsect] == win[..]
      modifies this`fat2, this`stale
      ensures WindowOk() && (winsect !in stale ==> fat2[winsect - g.fatBase] == disk[winsect])
      ensures stale == if copied then old(stale) - {winsect} else old(stale) + {winsect}
      ensures |fat2| == |old(fat2)| && forall s | 0 <= s < |fat2| && s != winsect - g.fatBase :: fat2[s] == old(fat2)[s]
    {
      var junk := Junk();
      copied := *;
      fat2 := fat2[winsect - g.fatBase := if copied then win[..] else junk];
      stale := if copied then stale - {winsect} else stale + {winsect};
    }

    /** Make sector `sect` appear in the window. */
    method MoveWindow(sect: nat) returns (res: Status)
      requires Valid() && !InMirror(g, sect)
      modifies this`disk, this`fat2, this`wflag, this`winsect, this`stale, win
      ensures Valid()
      ensures res in {Fine, DiskErr}
      ensures res == Fine && sect != NO_SECTOR ==> winsect == sect < |view| && win[..] == view[sect]
      ensures winsect in {old(winsect), sect, NO_SECTOR}
    {
      assert Open();
      res := Fine;
      if sect != winsect {
        res := SyncWindow();
        if res == Fine {
          var ok: bool := *;
          ok := ok && sect < |disk|;
          if ok {
            forall i | 0 <= i < win.Length { win[i] := disk[sect][i]; }
            assert win[..] == disk[sect];
            winsect := sect;
          } else {
            winsect := NO_SECTOR;
            res := DiskErr;
          }
        }
      }
    }

    /** Edit one byte of the window and mark it dirty. */
    method Poke(o: nat, b: byte)
      requires WindowOk() && winsect < |disk| && o < g.ss
      modifies this`wflag, this`view, win
      ensures WindowOk() && winsect < |old(view)| && o < |old(view)[winsect]|
      ensures view == Poked(old(view), winsect, o, b)
    {
      assert view[winsect] == win[..];
      win[o] := b;
      wflag := true;
      view := Poked(view, winsect, o, b);
      assert win[..] == old(win[..])[o := b];
    }

    /** Byte `i` of a run of sectors is in the window when its sector is. */
    lemma Peek(base: nat, size: nat, i: nat, o: nat)
      requires WindowOk() && base + size <= |disk| && base <= winsect < base + size && o < g.ss
      requires i == Times(g.ss, winsect - base) + o
      ensures i < |Bytes(view, base, size)| && win[o] == Bytes(view, base, size)[i]
    {
      BytesSize(g, view, base, size);
      FlatIndex(view[base..base + size], g.ss, winsect - base, o);
      assert view[winsect] == win[..];
    }

    /** Edit byte `i` of a run of sectors through the window. */
    method PokeByte(ghost base: nat, ghost size: nat, ghost i: nat, o: nat, b: byte)
      requires WindowOk() && base + size <= |disk| && base <= winsect < base + size && o < g.ss
      requires i == Times(g.ss, winsect - base) + o
      modifies this`wflag, this`view, win
      ensures WindowOk() && Only(base, size, old(view), view) && i < |Bytes(old(view), base, size)|
      ensures Bytes(view, base, size) == Bytes(old(view), base, size)[i := b]
    {
      PokedBytes(g, view, base, size, winsect, o, b);
      Poke(o, b);
    }

    // ---- FAT entries ----

    /** Byte `i` of the FAT is byte `o` of sector `s`. */
    ghost predicate FatAt(i: int, s: int, o: int) {
      g.fatBase <= s < g.fatBase + g.fSize && 0 <= o < g.ss && i == Times(g.ss, s - g.fatBase) + o
    }

    /** Where byte `k` of entry `c` is. */
    method Locate(c: nat, k: nat) returns (s: nat, o: nat)
      requires Valid() && 2 <= c < g.nFatent && k < EntryWidth(g.fsType)
      ensures FatAt(EntryOffset(g.fsType, c) + k, s, o) && !InMirror(g, s) && s < NO_SECTOR
      ensures g.fsType != Fat12 && k == 0 ==> o + EntryWidth(g.fsType) <= g.ss
    {
      assert Open();
      EntryFits(g.fsType, c, g.nFatent);
      match g.fsType {
        case Fat12 => s, o := Address(c + c / 2 + k, g.ss, g.fSize);
        case Fat16 => s, o := EntryAddress(c, 2, g.ss, g.fSize); o := o + k;
        case Fat32 => s, o := EntryAddress(c, 4, g.ss, g.fSize); o := o + k;
        case ExFat => s, o := EntryAddress(c, 4, g.ss, g.fSize); o := o + k;
      }
      s := s + g.fatBase;
    }

    /** Bring byte `k` of entry `c` into the window. */
    method Fetch(c: nat, k: nat) returns (res: Status, o: nat)
      requires Valid() && 2 <= c < g.nFatent && k < EntryWidth(g.fsType)
      modifies this`disk, this`fat2, this`wflag, this`winsect, this`stale, win
      ensures Valid() && res in {Fine, DiskErr}
      ensures winsect == old(winsect) || IsMeta(g, winsect)
      ensures res == Fine ==> FatAt(EntryOffset(g.fsType, c) + k, winsect, o)
      ensures res == Fine && g.fsType != Fat12 && k == 0 ==> o + EntryWidth(g.fsType) <= g.ss
    {
      var s;
      s, o := Locate(c, k);
      res := MoveWindow(s);
    }

    lemma PeekFat(i: nat, o: nat)
      requires Valid() && FatAt(i, winsect, o)
      ensures o < win.Length && i < |FatOf(g, view)| && win[o] == FatOf(g, view)[i]
    {
      assert Open() && OpenTables();
      Peek(g.fatBase, g.fSize, i, o);
    }

    /** Edit byte `i` of the FAT through the window. */
    method PokeFat(ghost i: nat, o: nat, b: byte)
      requires Valid() && FatAt(i, winsect, o)
      modifies this`wflag, this`view, this`tab, win
      ensures Valid() && FatOnly(g, old(view), view)
      ensures i < |FatOf(g, old(view))| && FatOf(g, view) == FatOf(g, old(view))[i := b]
    {
      assert Open();
      ghost var v := view;
      PokeByte(g.fatBase, g.fSize, i, o, b);
      TablesPokedFat(g, v, view, tab, bits);
      tab := TabOf(g, view);
    }

    lemma TabAt(c: nat)
      requires Valid() && 2 <= c < g.nFatent
      ensures FatBytes(g.fsType, c + 1) <= |FatOf(g, view)|
      ensures tab[c] == Entry(g.fsType, FatOf(g, view), c)
    {
      assert OpenTables();
      TableAt(g.fsType, g.nFatent, FatOf(g, view), c);
    }

    /** `get_fat` for an entry that is on the FAT: its value, or DISK_ERROR. */
    method ReadEntry(clst: nat) returns (val: nat)
      requires Valid() && 2 <= clst < g.nFatent
      modifies this`disk, this`fat2, this`wflag, this`winsect, this`stale, win
      ensures Valid()
      ensures val == DISK_ERROR || val == tab[clst]
      ensures winsect == old(winsect) || IsMeta(g, winsect)
    {
      match g.fsType {
        case Fat12 => val := ReadEntry12(clst);
        case Fat16 => val := ReadEntry16(clst);
        case Fat32 => val := ReadEntry32(clst, 0x1000_0000);
        case ExFat => val := ReadEntry32(clst, 0x8000_0000);
      }
    }

    /** A FAT12 entry may straddle two sectors: the window moves twice. */
    method ReadEntry12(clst: nat) returns (val: nat)
      requires Valid() && 2 <= clst < g.nFatent && g.fsType == Fat12
      modifies this`disk, this`fat2, this`wflag, this`winsect, this`stale, win
      ensures Valid()
      ensures val == DISK_ERROR || val == tab[clst]
      ensures winsect == old(winsect) || IsMeta(g, winsect)
    {
      var bc := clst + clst / 2;
      var res, o := Fetch(clst, 0);
      if res != Fine { return DISK_ERROR; }
      PeekFat(bc, o);
      var b0 := win[o];
      res, o := Fetch(clst, 1);
      if res != Fine { return DISK_ERROR; }
      PeekFat(bc + 1, o);
      TabAt(clst);
      val := Entry12(Word(b0, win[o]), clst);
    }

    method ReadEntry16(clst: nat) returns (val: nat)
      requires Valid() && 2 <= clst < g.nFatent && g.fsType == Fat16
      modifies this`disk, this`fat2, this`wflag, this`winsect, this`stale, win
      ensures Valid()
      ensures val == DISK_ERROR || val == tab[clst]
      ensures winsect == old(winsect) || IsMeta(g, winsect)
    {
      var res, o := Fetch(clst, 0);
      if res != Fine { return DISK_ERROR; }
      PeekFat(clst * 2, o);
      PeekFat(clst * 2 + 1, o + 1);
      TabAt(clst);
      val := Word(win[o], win[o + 1]);
    }

    /** The double word of an entry, in the window. */
    lemma PeekDword(i: nat, o: nat)
      requires Valid() && FatAt(i, winsect, o) && o + 3 < g.ss
      ensures o + 3 < win.Length && i + 3 < |FatOf(g, view)|
      ensures Dword(win[o], win[o + 1], win[o + 2], win[o + 3]) == DwordAt(FatOf(g, view), i)
    {
      PeekFat(i, o);
      PeekFat(i + 1, o + 1);
      PeekFat(i + 2, o + 2);
      PeekFat(i + 3, o + 3);
    }

    method ReadEntry32(clst: nat, mask: nat) returns (val: nat)
      requires Valid() && 2 <= clst < g.nFatent
      requires mask == (if g.fsType == Fat32 then 0x1000_0000 else 0x8000_0000) && EntryWidth(g.fsType) == 4
      modifies this`disk, this`fat2, this`wflag, this`winsect, this`stale, win
      ensures Valid()
      ensures val == DISK_ERROR || val == tab[clst]
      ensures winsect == old(winsect) || IsMeta(g, winsect)
    {
      var res, o := Fetch(clst, 0);
      if res != Fine { return DISK_ERROR; }
      PeekDword(clst * 4, o);
      TabAt(clst);
      val := Dword(win[o], win[o + 1], win[o + 2], win[o + 3]) % mask;
    }

    /** Change an entry of the FAT. */
    method PutFat(clst: nat, val: nat) returns (res: Status)
      requires Valid() && val < 0x1_0000_0000
      modifies this`disk, this`fat2, this`wflag, this`winsect, this`stale, this`view, this`tab, win
      ensures Valid() && FatOnly(g, old(view), view)
      ensures winsect == old(winsect) || IsMeta(g, winsect)
      ensures !(2 <= clst < g.nFatent) ==> res == IntErr && view == old(view) && tab == old(tab)
      ensures 2 <= clst < g.nFatent ==> res in {Fine, DiskErr}
      ensures res == Fine ==>
                && tab == old(tab)[clst := Cut(g.fsType, val)]
                && FatBytes(g.fsType, clst + 1) <= |FatOf(g, old(view))|
                && FatOf(g, view) == Put(g.fsType, FatOf(g, old(view)), clst, val)
                && InFat(g, winsect)
    {
      res := IntErr;
      if 2 <= clst < g.nFatent {
        TabAt(clst);
        match g.fsType {
          case Fat12 => res := PutFat12(clst, val);
          case Fat16 => res := PutFat16(clst, val);
          case Fat32 => res := PutFat32(clst, val);
          case ExFat => res := PutFat32(clst, val);
        }
        if res == Fine {
          assert OpenTables();
          TablePut(g.fsType, g.nFatent, FatOf(g, old(view)), clst, val);
        }
      }
    }

    method PutFat12(clst: nat, val: nat) returns (res: Status)
      requires Valid() && val < 0x1_0000_0000
      requires 2 <= clst < g.nFatent && g.fsType == Fat12 && FatBytes(g.fsType, clst + 1) <= |FatOf(g, view)|
      modifies this`disk, this`fat2, this`wflag, this`winsect, this`stale, this`view, this`tab, win
      ensures Valid() && FatOnly(g, old(view), view) && res in {Fine, DiskErr}
      ensures res == Fine ==> FatOf(g, view) == Put(g.fsType, FatOf(g, old(view)), clst, val) && InFat(g, winsect)
      ensures winsect == old(winsect) || IsMeta(g, winsect)
    {
      Put12Is(FatOf(g, view), clst, val);
      res := PutHalf12(clst, 0, val);
      if res != Fine { return; }
      res := PutHalf12(clst, 1, val);
    }

    /** Merge byte `k` of a FAT12 entry into the FAT. */
    method PutHalf12(clst: nat, k: nat, val: nat) returns (res: Status)
      requires Valid() && 2 <= clst < g.nFatent && g.fsType == Fat12 && k < 2
      modifies this`disk, this`fat2, this`wflag, this`winsect, this`stale, this`view, this`tab, win
      ensures Valid() && FatOnly(g, old(view), view) && res in {Fine, DiskErr}
      ensures winsect == old(winsect) || IsMeta(g, winsect)
      ensures res == Fine ==>
                var i, f := clst + clst / 2 + k, FatOf(g, old(view));
                i < |f| && InFat(g, winsect) &&
                FatOf(g, view) == f[i := if k == 0 then Low12(f[i], clst, val) else High12(f[i], clst, val)]
    {
      var o;
      res, o := Fetch(clst, k);
      if res != Fine { return; }
      PeekFat(clst + clst / 2 + k, o);
      PokeFat(clst + clst / 2 + k, o, if k == 0 then Low12(win[o], clst, val) else High12(win[o], clst, val));
    }

    method PutFat16(clst: nat, val: nat) returns (res: Status)
      requires Valid() && val < 0x1_0000_0000
      requires 2 <= clst < g.nFatent && g.fsType == Fat16 && FatBytes(g.fsType, clst + 1) <= |FatOf(g, view)|
      modifies this`disk, this`fat2, this`wflag, this`winsect, this`stale, this`view, this`tab, win
      ensures Valid() && FatOnly(g, old(view), view) && res in {Fine, DiskErr}
      ensures res == Fine ==> FatOf(g, view) == Put(g.fsType, FatOf(g, old(view)), clst, val) && InFat(g, winsect)
      ensures winsect == old(winsect) || IsMeta(g, winsect)
    {
      var o;
      res, o := Fetch(clst, 0);
      if res != Fine { return; }
      PokeFat(clst * 2, o, WordByte(val, 0));
      PokeFat(clst * 2 + 1, o + 1, WordByte(val, 1));
    }

    method PutFat32(clst: nat, val: nat) returns (res: Status)
      requires Valid() && val < 0x1_0000_0000
      requires 2 <= clst < g.nFatent && EntryWidth(g.fsType) == 4 && FatBytes(g.fsType, clst + 1) <= |FatOf(g, view)|
      modifies this`disk, this`fat2, this`wflag, this`winsect, this`stale, this`view, this`tab, win
      ensures Valid() && FatOnly(g, old(view), view) && res in {Fine, DiskErr}
      ensures res == Fine ==> FatOf(g, view) == Put(g.fsType, FatOf(g, old(view)), clst, val) && InFat(g, winsect)
      ensures winsect == old(winsect) || IsMeta(g, winsect)
    {
      var o;
      res, o := Fetch(clst, 0);
      if res != Fine { return; }
      PeekDword(clst * 4, o);
      var w := val;
      if g.fsType != ExFat {
        w := Keep4(val, Dword(win[o], win[o + 1], win[o + 2], win[o + 3]));
      }
      PokeDword(clst * 4, o, w);
    }

    /** Store a double word at byte `i` of the FAT through the window. */
    method PokeDword(ghost i: nat, o: nat, w: nat)
      requires Valid() && FatAt(i, winsect, o) && o + 3 < g.ss
      modifies this`wflag, this`view, this`tab, win
      ensures Valid() && FatOnly(g, old(view), view)
      ensures i + 3 < |FatOf(g, old(view))| && FatOf(g, view) == PutDword(FatOf(g, old(view)), i, w)
    {
      PokeFat(i, o, DwordByte(w, 0));
      PokeFat(i + 1, o + 1, DwordByte(w, 1));
      PokeFat(i + 2, o + 2, DwordByte(w, 2));
      PokeFat(i + 3, o + 3, DwordByte(w, 3));
    }

    /** Update the counters after `clst` was allocated. */
    method CountAllocated(clst: nat)
      requires Valid() && freeClst > 0
      modifies this`freeClst, this`lastClst, this`fsiDirty
      ensures Valid() && lastClst == clst && fsiDirty
      ensures freeClst == if old(freeClst) <= g.nFatent - 2 then old(freeClst) - 1 else old(freeClst)
    {
      lastClst := clst;
      if freeClst <= g.nFatent - 2 { freeClst := freeClst - 1; }
      fsiDirty := true;
    }

    /** Update the counters after a cluster was freed. */
    method CountFreed()
      requires Valid()
      modifies this`freeClst, this`fsiDirty
      ensures Valid()
      ensures freeClst == if old(freeClst) < g.nFatent - 2 then old(freeClst) + 1 else old(freeClst)
      ensures fsiDirty == (old(fsiDirty) || freeClst != old(freeClst))
    {
      if freeClst < g.nFatent - 2 {
        freeClst := freeClst + 1;
        fsiDirty := true;
      }
    }

    // ---- bits of the exFAT allocation bitmap ----

    /** Bit `c` of the bitmap is bit `k` of byte `o` of sector `s`. */
    ghost predicate BitAt(c: int, s: int, o: int, k: int) {
      && g.bitBase <= s < g.bitBase + g.bitSize && 0 <= o < g.ss && 0 <= k < 8
      && c == 8 * (Times(g.ss, s - g.bitBase) + o) + k
    }

    /** Where bit `c` of the bitmap is. */
    method LocateBit(c: nat) returns (s: nat, o: nat, k: nat)
      requires Valid() && g.fsType == ExFat && c < g.nFatent - 2
      ensures BitAt(c, s, o, k) && !InMirror(g, s) && s < NO_SECTOR
    {
      assert Open();
      s, o := Address(c / 8, g.ss, g.bitSize);
      s, k := s + g.bitBase, c % 8;
    }

    lemma PeekBit(c: nat, o: nat, k: nat)
      requires Valid() && g.fsType == ExFat && c < g.nFatent - 2 && BitAt(c, winsect, o, k)
      ensures o < win.Length && TestBit(win[o], k) == bits[c]
    {
      assert Open();
      var j := Times(g.ss, winsect - g.bitBase) + o;
      Peek(g.bitBase, g.bitSize, j, o);
      BitInView(g, view, tab, bits, j, k);
    }

    /** Put bit `k` of byte `o` of the window, over a sector of the bitmap. */
    method EditBit(ghost j: nat, o: nat, k: nat, value: bool)
      requires WindowOk() && g.fsType == ExFat && InBitmap(g, winsect) && o < g.ss && k < 8
      requires j == Times(g.ss, winsect - g.bitBase) + o
      modifies this`wflag, this`view, win
      ensures WindowOk() && BitmapOnly(g, old(view), view) && j < |Bytes(old(view), g.bitBase, g.bitSize)|
      ensures Bytes(view, g.bitBase, g.bitSize) ==
              Bytes(old(view), g.bitBase, g.bitSize)[j := PutBit(Bytes(old(view), g.bitBase, g.bitSize)[j], k, value)]
    {
      Peek(g.bitBase, g.bitSize, j, o);
      PokeByte(g.bitBase, g.bitSize, j, o, PutBit(win[o], k, value));
    }

    /** Put bit `c` of the bitmap through the window. */
    method PokeBit(ghost c: nat, o: nat, k: nat, value: bool)
      requires Valid() && g.fsType == ExFat && c < g.nFatent - 2 && BitAt(c, winsect, o, k)
      modifies this`wflag, this`view, this`bits, win
      ensures Valid() && bits == old(bits)[c := value]
      ensures BitmapOnly(g, old(view), view)
    {
      assert Open();
      ghost var j := Times(g.ss, winsect - g.bitBase) + o;
      ghost var v := view;
      EditBit(j, o, k, value);
      TablesPokedBit(g, v, view, tab, bits, j, k, value);
      bits := bits[c := value];
    }

    // ---- direct transfers of file data, past the window ----

    /** `disk_read` of file data. */
    method ReadData(sect: nat, cc: nat) returns (ok: bool, data: seq<Sector>)
      requires Valid() && sect + cc <= |view| && PlainRun(g, winsect, sect, cc)
      ensures ok ==> data == view[sect..sect + cc]
    {
      assert Open();
      ok := *;
      data := if ok then disk[sect..sect + cc] else [];
    }

    /** `disk_write` of file data; a failed write leaves any contents there. */
    method WriteData(sect: nat, data: seq<Sector>) returns (ok: bool)
      requires Valid() && sect + |data| <= |view| && AllSized(data, g.ss) && PlainRun(g, winsect, sect, |data|)
      modifies this`disk, this`view
      ensures Valid() && |view| == |old(view)|
      ensures ok ==> view == Spliced(old(view), sect, data)
    {
      ok := *;
      var put := data;
      if !ok { put := JunkRun(|data|); }
      assert ViewOk(g, view) by { assert OpenTables(); }
      SplicedTables(g, view, winsect, sect, put, tab, bits);
      assert Open();
      StoreData(sect, put);
    }

    method StoreData(sect: nat, data: seq<Sector>)
      requires WindowOk() && sect + |data| <= |view| && AllSized(data, g.ss) && PlainRun(g, winsect, sect, |data|)
      modifies this`disk, this`view
      ensures WindowOk() && view == Spliced(old(view), sect, data)
    {
      SplicedOk(g, disk, sect, data);
      disk := Spliced(disk, sect, data);
      view := Spliced(view, sect, data);
    }

    method JunkRun(n: nat) returns (data: seq<Sector>)
      ensures |data| == n && AllSized(data, g.ss)
    {
      data := [];
      while |data| < n
        invariant |data| <= n && AllSized(data, g.ss)
      {
        var sec := Junk();
        data := data + [sec];
      }
    }
  }
}
