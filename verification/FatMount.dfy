/** Mounting FAT volumes: `check_fs`, `find_volume` and the FAT part of `mount_volume`, on 512-byte sectors. */
module FatMount {
  import opened Arith
  import opened FatCodec
  import opened Volumes

  const SS: nat := 512
  const U32: nat := 0x1_0000_0000

  const MAX_FAT12: nat := 0xFF5
  const MAX_FAT16: nat := 0xFFF5
  const MAX_FAT32: nat := 0x0FFF_FFF5

  /** What a sector is: a FAT boot sector, an exFAT one, another boot sector, no boot sector, or unreadable. */
  datatype Found = FatVbr | ExfatVbr | OtherBoot | NoBoot | Unreadable

  /** The fields of `FATFS` after mounting a FAT volume. */
  datatype Mounted = Mounted(g: Geometry, volBase: nat, nRootDir: nat, dirBase: nat, freeClst: nat, lastClst: nat)

  datatype MountResult = Ok(fs: Mounted) | NoFilesystem | DiskError | Exfat

  type Boot = b: Sector | |b| == SS witness seq(SS, _ => 0)

  /** The bytes at `o` spell `text`. */
  predicate Spells(b: Boot, o: nat, text: seq<byte>)
    requires o + |text| <= SS
  {
    b[o..o + |text|] == text
  }

  const FAT32_NAME: seq<byte> := [0x46, 0x41, 0x54, 0x33, 0x32, 0x20, 0x20, 0x20]
  const EXFAT_HEAD: seq<byte> := [0xEB, 0x76, 0x90, 0x45, 0x58, 0x46, 0x41, 0x54, 0x20, 0x20, 0x20]

  /** `x & (x - 1)` is zero, for x of at most 16 bits. */
  predicate PowerOf2(x: nat) {
    x in {0, 1, 2, 4, 8, 0x10, 0x20, 0x40, 0x80, 0x100, 0x200, 0x400, 0x800, 0x1000, 0x2000, 0x4000, 0x8000}
  }

  /** `check_fs`. */
  function CheckFs(drive: seq<Sector>, sect: nat): Found {
    if sect >= |drive| || |drive[sect]| != SS then Unreadable
    else
      var b: Boot := drive[sect];
      var sign := WordAt(b, 510);
      if sign == 0xAA55 && Spells(b, 0, EXFAT_HEAD) then ExfatVbr
      else if b[0] in {0xEB, 0xE9, 0xE8} && ((sign == 0xAA55 && Spells(b, 82, FAT32_NAME)) || OldFat(b)) then FatVbr
      else if sign == 0xAA55 then OtherBoot else NoBoot
  }

  /** A FAT boot sector without signatures. */
  predicate OldFat(b: Boot) {
    && PowerOf2(WordAt(b, 11)) && 512 <= WordAt(b, 11) <= 4096
    && b[13] != 0 && PowerOf2(b[13])
    && WordAt(b, 14) != 0 && b[16] in {1, 2} && WordAt(b, 17) != 0
    && (WordAt(b, 19) >= 128 || DwordAt(b, 32) >= 0x10000)
    && WordAt(b, 22) != 0
  }

  /** First sector of partition `i` of the MBR. */
  function Partition(mbr: Sector, i: nat): nat
    requires |mbr| == SS && i < 4
  {
    DwordAt(mbr, 446 + 16 * i + 8)
  }

  /** Partition `i` is a FAT or exFAT volume. */
  predicate IsVolume(drive: seq<Sector>, i: nat)
    requires CheckFs(drive, 0) == OtherBoot && i < 4
  {
    Partition(drive[0], i) != 0 && CheckFs(drive, Partition(drive[0], i)) in {FatVbr, ExfatVbr}
  }

  /** `find_volume` with automatic choice: sector 0, or the first partition of the MBR that is a FAT or exFAT volume. */
  method FindVolume(drive: seq<Sector>) returns (fmt: Found, sect: nat)
    ensures CheckFs(drive, 0) != OtherBoot ==> fmt == CheckFs(drive, 0) && sect == 0
    ensures CheckFs(drive, 0) == OtherBoot && fmt in {FatVbr, ExfatVbr} ==>
              exists i | 0 <= i < 4 :: IsVolume(drive, i) && sect == Partition(drive[0], i) && fmt == CheckFs(drive, sect)
                                       && forall j | 0 <= j < i :: !IsVolume(drive, j)
    ensures CheckFs(drive, 0) == OtherBoot && fmt !in {FatVbr, ExfatVbr} ==>
              forall j | 0 <= j < 4 :: !IsVolume(drive, j)
  {
    fmt, sect := CheckFs(drive, 0), 0;
    if fmt != OtherBoot { return; }
    var mbr := drive[0];
    var i: nat := 0;
    while i < 4 && fmt !in {FatVbr, ExfatVbr}
      invariant i <= 4 && (i == 0 ==> fmt == OtherBoot)
      invariant fmt !in {FatVbr, ExfatVbr} ==> forall j | 0 <= j < i :: !IsVolume(drive, j)
      invariant fmt in {FatVbr, ExfatVbr} ==>
                  && i > 0 && IsVolume(drive, i - 1) && sect == Partition(mbr, i - 1) && fmt == CheckFs(drive, sect)
                  && forall j | 0 <= j < i - 1 :: !IsVolume(drive, j)
      decreases 4 - i
    {
      var lba := Partition(mbr, i);
      fmt := if lba != 0 then CheckFs(drive, lba) else NoBoot;
      sect := lba;
      i := i + 1;
    }
  }

  // ---- mount_volume ----

  /** Sectors per FAT. */
  function FatSize(b: Boot): nat {
    if WordAt(b, 22) != 0 then WordAt(b, 22) else DwordAt(b, 36)
  }

  function TotalSectors(b: Boot): nat {
    if WordAt(b, 19) != 0 then WordAt(b, 19) else DwordAt(b, 32)
  }

  /** Sectors of all FATs, of which there are one or two. */
  function FatArea(b: Boot): nat {
    if b[16] == 2 then 2 * FatSize(b) else FatSize(b)
  }

  /** Sectors before the data area, before any 32-bit cut. */
  function SystemSectors(b: Boot): nat {
    WordAt(b, 14) + FatArea(b) + WordAt(b, 17) / 16
  }

  /** The FAT type that a number of clusters means. */
  function TypeOf(nclst: nat): FsType
    requires nclst <= MAX_FAT32
  {
    if nclst <= MAX_FAT12 then Fat12 else if nclst <= MAX_FAT16 then Fat16 else Fat32
  }

  /** Every sector number up to the start of the data area fits in 32 bits. */
  predicate NoCut(b: Boot, base: nat) {
    base + SystemSectors(b) < U32
  }

  /** The first data sector, as the source computes it in 32 bits. */
  function DataStart(base: nat, sys: nat): nat {
    (base + sys % U32) % U32
  }

  /** The first sector after the FATs, in 32 bits. */
  function AfterFats(base: nat, rsv: nat, fasize: nat): nat {
    ((base + rsv) % U32 + fasize) % U32
  }

  /** The first sector of a root directory that is no cluster chain. */
  function RootStart(b: Boot, base: nat): nat {
    AfterFats(base, WordAt(b, 14), FatArea(b) % U32)
  }

  /** It takes the sectors between the FATs and the data, if no sector number is cut. */
  lemma RootInPlace(b: Boot, base: nat)
    requires NoCut(b, base)
    ensures RootStart(b, base) == base + WordAt(b, 14) + FatArea(b)
    ensures RootStart(b, base) + WordAt(b, 17) / 16 == DataStart(base, SystemSectors(b))
  {
    Uncut(base, WordAt(b, 14), FatArea(b), WordAt(b, 17) / 16, SystemSectors(b));
  }

  lemma Uncut(base: nat, rsv: nat, area: nat, rest: nat, sys: nat)
    requires base + sys < U32 && sys == rsv + area + rest
    ensures AfterFats(base, rsv, area % U32) == base + rsv + area && DataStart(base, sys) == base + sys
  {
    Whole(base + rsv);
    Whole(area);
    Whole(base + rsv + area);
    Whole(sys);
    Whole(base + sys);
  }

  lemma Whole(x: nat)
    requires x < U32
    ensures x % U32 == x
  {
  }

  /** The geometry that a boot sector describes, sector numbers cut to 32 bits. */
  function GeometryOf(b: Boot, base: nat, nclst: nat): Geometry
    requires nclst <= MAX_FAT32
  {
    Geometry(TypeOf(nclst), SS, b[16], (base + WordAt(b, 14)) % U32, FatSize(b), nclst + 2, b[13],
             DataStart(base, SystemSectors(b)), 0, 0)
  }

  /** What is checked of the boot sector and the number of clusters it gives; 0 if a test fails. */
  function ClustersOf(b: Boot): (n: nat)
    ensures n > 0 ==> b[16] in {1, 2} && b[13] != 0 && WordAt(b, 14) != 0
  {
    if WordAt(b, 11) != SS || b[16] !in {1, 2} || b[13] == 0 || !PowerOf2(b[13]) || WordAt(b, 17) % 16 != 0 || WordAt(b, 14) == 0 then 0
    else
      var sys := SystemSectors(b) % U32;
      if TotalSectors(b) < sys then 0 else Div(TotalSectors(b) - sys, b[13])
  }

  /** The last tests, which depend on the FAT type. */
  predicate TypeFits(b: Boot, t: FsType, nFatent: nat) {
    && (t == Fat32 ==> WordAt(b, 42) == 0 && WordAt(b, 17) == 0)
    && (t != Fat32 ==> WordAt(b, 17) != 0)
    && FatSize(b) >= (FatBytes(t, nFatent) + (SS - 1)) / SS
  }

  /** The boot sector passes every test of `mount_volume`. */
  predicate Mountable(b: Boot) {
    0 < ClustersOf(b) <= MAX_FAT32 && TypeFits(b, TypeOf(ClustersOf(b)), ClustersOf(b) + 2)
  }

  /** The MBR's first partition is a FAT volume. */
  predicate FirstIsFat(drive: seq<Sector>) {
    && CheckFs(drive, 0) == OtherBoot
    && Partition(drive[0], 0) != 0 && CheckFs(drive, Partition(drive[0], 0)) == FatVbr
  }

  /** `mount_volume` from the boot sector on, for a FAT volume at sector `base`. */
  method MountFat(drive: seq<Sector>, base: nat) returns (r: MountResult)
    requires CheckFs(drive, base) == FatVbr && base < U32
    ensures r.Ok? || r == NoFilesystem
    ensures r.Ok? <==> Mountable(drive[base])
    ensures r.Ok? ==> var b: Boot := drive[base]; r.fs.volBase == base && r.fs.g == GeometryOf(b, base, ClustersOf(b))
    ensures r.Ok? ==> r.fs.nRootDir == WordAt(drive[base], 17)
    ensures r.Ok? && r.fs.g.fsType == Fat32 ==> r.fs.dirBase == DwordAt(drive[base], 44)
    ensures r.Ok? && r.fs.g.fsType != Fat32 ==> r.fs.dirBase == RootStart(drive[base], base)
    ensures r.Ok? && r.fs.g.fsType == Fat32 && WordAt(drive[base], 48) == 1 && InfoOk(drive, base + 1) ==>
              r.fs.freeClst == DwordAt(drive[base + 1], 488) && r.fs.lastClst == DwordAt(drive[base + 1], 492)
    ensures r.Ok? && !(r.fs.g.fsType == Fat32 && WordAt(drive[base], 48) == 1 && InfoOk(drive, base + 1)) ==>
              r.fs.freeClst == r.fs.lastClst == 0xFFFF_FFFF
  {
    var b: Boot := drive[base];
    if WordAt(b, 11) != SS { return NoFilesystem; }
    var fasize := FatSize(b);
    var fsize := fasize;
    if b[16] != 1 && b[16] != 2 { return NoFilesystem; }
    fasize := (if b[16] == 2 then 2 * fasize else fasize) % U32;
    if b[13] == 0 || !PowerOf2(b[13]) { return NoFilesystem; }
    var nRootDir := WordAt(b, 17);
    if nRootDir % 16 != 0 { return NoFilesystem; }
    var tsect, nrsv := TotalSectors(b), WordAt(b, 14);
    if nrsv == 0 { return NoFilesystem; }
    var sysect := (nrsv + fasize + nRootDir / 16) % U32;
    CutSum(nrsv, FatArea(b), nRootDir / 16);
    if tsect < sysect { return NoFilesystem; }
    var nclst := Div(tsect - sysect, b[13]);
    if nclst == 0 || nclst > MAX_FAT32 { return NoFilesystem; }
    var fmt := TypeOf(nclst);
    var g := GeometryOf(b, base, nclst);
    var dirBase := AfterFats(base, nrsv, fasize);
    if fmt == Fat32 {
      if WordAt(b, 42) != 0 || nRootDir != 0 { return NoFilesystem; }
      dirBase := DwordAt(b, 44);
    } else {
      if nRootDir == 0 { return NoFilesystem; }
    }
    if fsize < (FatBytes(fmt, nclst + 2) + (SS - 1)) / SS { return NoFilesystem; }
    var free, last := 0xFFFF_FFFF, 0xFFFF_FFFF;
    if fmt == Fat32 && WordAt(b, 48) == 1 && InfoOk(drive, base + 1) {
      free, last := DwordAt(drive[base + 1], 488), DwordAt(drive[base + 1], 492);
    }
    r := Ok(Mounted(g, base, nRootDir, dirBase, free, last));
  }

  lemma CutSum(a: nat, b: nat, c: nat)
    ensures (a + b % U32 + c) % U32 == (a + b + c) % U32
  {
  }

  /** A readable FSInfo sector with its signatures. */
  predicate InfoOk(drive: seq<Sector>, sect: nat) {
    && sect < |drive| && |drive[sect]| == SS
    && WordAt(drive[sect], 510) == 0xAA55 && DwordAt(drive[sect], 0) == 0x41615252 && DwordAt(drive[sect], 484) == 0x61417272
  }

  /** The geometry is one that everything else relies on, and the FAT and the data are where the boot sector has them. */
  ghost predicate InPlace(g: Geometry, b: Boot, base: nat) {
    ValidGeometry(g) && g.fatBase == base + WordAt(b, 14) && g.database == base + SystemSectors(b)
  }

  /** A volume that passes the tests is mounted in place exactly when no sector number is cut. */
  lemma MountedGeometry(b: Boot, base: nat)
    requires Mountable(b) && base < U32
    ensures InPlace(GeometryOf(b, base, ClustersOf(b)), b, base) <==> NoCut(b, base)
  {
    var g := GeometryOf(b, base, ClustersOf(b));
    CutPlaces(base, WordAt(b, 14), SystemSectors(b));
    EnoughFat(g.fsType, g.nFatent, g.fSize);
    if NoCut(b, base) { SoundPlaces(g, FatArea(b)); }
  }

  /** What is left to ask of a geometry once its sizes agree. */
  lemma SoundPlaces(g: Geometry, area: nat)
    requires g.fsType != ExFat && g.ss == SS && g.nFats in {1, 2} && 1 <= g.csize && area == g.nFats * g.fSize
    requires 3 <= g.nFatent <= MaxEntries(g.fsType) && FatBytes(g.fsType, g.nFatent) <= Times(SS, g.fSize)
    requires 1 <= g.fatBase && g.fatBase + area <= g.database
    ensures ValidGeometry(g)
  {
  }

  lemma EnoughFat(t: FsType, n: nat, size: nat)
    requires size >= (FatBytes(t, n) + (SS - 1)) / SS
    ensures FatBytes(t, n) <= Times(SS, size)
  {
    TimesIs(SS, size);
  }

  /** When cutting to 32 bits changes neither the start of the FAT nor that of the data. */
  lemma CutPlaces(base: nat, rsv: nat, sys: nat)
    requires rsv <= sys && base < U32
    ensures (base + rsv) % U32 == base + rsv && DataStart(base, sys) == base + sys <==> base + sys < U32
  {
  }

  /** The boot sector of a FAT32 volume with 32 reserved sectors and a FAT of 1000. */
  function CutBoot(): Boot {
    seq(SS, i => if i == 0 then 0xEB else if i == 12 then 2 else if i == 13 then 1 else if i == 14 then 32
                 else if i == 16 then 1 else if i == 32 then 0x70 else if i == 33 then 0x11 else if i == 34 then 1
                 else if i == 36 then 0xE8 else if i == 37 then 3
                 else if 82 <= i < 90 then FAT32_NAME[i - 82]
                 else if i == 510 then 0x55 else if i == 511 then 0xAA else 0)
  }

  lemma CutFields(b: Boot)
    requires b == CutBoot()
    ensures WordAt(b, 11) == SS && b[13] == 1 && WordAt(b, 14) == 32 && b[16] == 1 && WordAt(b, 17) == 0
    ensures TotalSectors(b) == 70000 && FatSize(b) == 1000 && WordAt(b, 42) == 0
  {
    assert b[19] == 0 && b[20] == 0 && b[22] == 0 && b[23] == 0 && b[35] == 0 && b[38] == 0 && b[39] == 0;
  }

  lemma CutCounts(b: Boot)
    requires WordAt(b, 11) == SS && b[13] == 1 && WordAt(b, 14) == 32 && b[16] == 1 && WordAt(b, 17) == 0
    requires TotalSectors(b) == 70000 && FatSize(b) == 1000 && WordAt(b, 42) == 0
    ensures SystemSectors(b) == 1032 && ClustersOf(b) == 68968 && Mountable(b)
  {
  }

  lemma Wrapped(x: nat)
    requires U32 <= x < 2 * U32
    ensures x % U32 == x - U32
  {
  }

  /** A FAT that starts past the last sector number is taken to start at what is left of the number. */
  lemma CutBase(b: Boot, base: nat, rsv: nat, n: nat)
    requires n <= MAX_FAT32 && base < U32 <= base + rsv && WordAt(b, 14) == rsv < U32
    ensures GeometryOf(b, base, n).fatBase == base + rsv - U32
  {
    Wrapped(base + rsv);
  }

  lemma CutFound(drive: seq<Sector>, base: nat)
    requires base < |drive| && drive[base] == CutBoot()
    ensures CheckFs(drive, base) == FatVbr
  {
    var b: Boot := drive[base];
    assert b[0] == 0xEB && b[1] == 0 && WordAt(b, 510) == 0xAA55;
    assert b[0..11][1] != EXFAT_HEAD[1];
    assert b[82..90] == FAT32_NAME;
  }

  /** With this boot sector at 0xFFFFFFF0 a drive has a FAT volume that is accepted, with its FAT at sector 16. */
  lemma CutMounts(drive: seq<Sector>)
    requires 0xFFFF_FFF0 < |drive| && drive[0xFFFF_FFF0] == CutBoot()
    ensures var b, base := CutBoot(), 0xFFFF_FFF0;
            && CheckFs(drive, base) == FatVbr && Mountable(b)
            && GeometryOf(b, base, ClustersOf(b)).fatBase == 16 && !InPlace(GeometryOf(b, base, ClustersOf(b)), b, base)
  {
    CutFound(drive, 0xFFFF_FFF0);
    CutFields(CutBoot());
    CutCounts(CutBoot());
    CutBase(CutBoot(), 0xFFFF_FFF0, 32, 68968);
  }

  /** `mount_volume`: find the volume and mount it; exFAT volumes are another matter. */
  method Mount(drive: seq<Sector>) returns (r: MountResult, base: nat)
    ensures r.Ok? ==> CheckFs(drive, base) == FatVbr && base < U32 && Mountable(drive[base])
    ensures r.Ok? ==> r.fs.g == GeometryOf(drive[base], base, ClustersOf(drive[base]))
                      && (InPlace(r.fs.g, drive[base], base) <==> NoCut(drive[base], base))
    ensures CheckFs(drive, 0) == FatVbr ==> base == 0 && (Mountable(drive[0]) ==> r.Ok?)
    ensures FirstIsFat(drive) ==> base == Partition(drive[0], 0) && (Mountable(drive[base]) ==> r.Ok?)
    ensures r.Ok? && r.fs.g.fsType == Fat32 ==> r.fs.dirBase == DwordAt(drive[base], 44)
    ensures r.Ok? && r.fs.g.fsType != Fat32 && NoCut(drive[base], base) ==>
              r.fs.dirBase + r.fs.nRootDir / 16 == r.fs.g.database
    ensures r.Ok? && r.fs.g.fsType == Fat32 && WordAt(drive[base], 48) == 1 && InfoOk(drive, base + 1) ==>
              r.fs.freeClst == DwordAt(drive[base + 1], 488) && r.fs.lastClst == DwordAt(drive[base + 1], 492)
  {
    var fmt;
    fmt, base := FindVolume(drive);
    assert FirstIsFat(drive) ==> IsVolume(drive, 0);
    if fmt == Unreadable { return DiskError, base; }
    if fmt == ExfatVbr { return Exfat, base; }
    if fmt != FatVbr || base >= U32 { return NoFilesystem, base; }
    r := MountFat(drive, base);
    if r.Ok? { MountedGeometry(drive[base], base); }
    if NoCut(drive[base], base) { RootInPlace(drive[base], base); }
  }

  /** The whole of it: a drive with this volume as its first partition is mounted, and not in place. */
  method MountsCut(drive: seq<Sector>) returns (r: MountResult)
    requires CheckFs(drive, 0) == OtherBoot && Partition(drive[0], 0) == 0xFFFF_FFF0
    requires 0xFFFF_FFF0 < |drive| && drive[0xFFFF_FFF0] == CutBoot()
    ensures r.Ok? && r.fs.g.fatBase == 16 && !InPlace(r.fs.g, CutBoot(), 0xFFFF_FFF0)
  {
    CutMounts(drive);
    var base;
    r, base := Mount(drive);
  }
}
