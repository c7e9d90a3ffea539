/** The FAT32 part of `f_mkfs`, with the parameters the wrapper passes, and that `mount_volume` finds what it made. */
module FatFormat {
  import opened Arith
  import opened FatCodec
  import opened Volumes
  import opened Chains
  import opened FatMount

  const N_SEC_TRACK: nat := 63  // where the partition starts
  const ALIGN: nat := 8         // 4096 / sector size
  const BUF_SECTORS: nat := 8   // sectors of the working buffer

  /** Where things are on the new volume. */
  datatype Plan = Plan(szVol: nat, pau: nat, szRsv: nat, szFat: nat, nClst: nat)

  predicate IsUnit(pau: nat) {
    pau in {1, 2, 4, 8, 0x10, 0x20, 0x40}
  }

  /** The cluster size for a volume: from the table of boundaries in units of 128K sectors. */
  method PickUnit(szVol: nat) returns (pau: nat)
    ensures IsUnit(pau)
    ensures pau > 1 ==> 0x1_0000 * pau <= szVol
    ensures pau < 0x40 ==> szVol < 0x2_0000 * pau
  {
    var n := szVol / 0x2_0000;
    var i := 0;
    pau := 1;
    while i < 6 && Boundary(i) <= n
      invariant 0 <= i <= 6 && pau == Boundary(i) && (i > 0 ==> pau <= 2 * n)
    {
      i, pau := i + 1, 2 * pau;
    }
  }

  /** The table of boundaries. */
  function Boundary(k: nat): nat
    requires k <= 6
  {
    if k == 0 then 1 else 2 * Boundary(k - 1)
  }

  /** What the plan guarantees. */
  ghost predicate Sane(p: Plan) {
    && IsUnit(p.pau) && p.szVol < U32
    && 32 <= p.szRsv < 40 && p.szRsv + p.szFat + 9 <= p.szVol
    && (N_SEC_TRACK + p.szRsv + p.szFat) % ALIGN == 0
    && p.nClst == Div(p.szVol - p.szRsv - p.szFat, p.pau) && MAX_FAT16 < p.nClst <= MAX_FAT32
    && 4 * (p.nClst + 2) <= 512 * p.szFat && p.szFat < 0x100_0000
  }

  datatype Try = Good(plan: Plan) | TooFew | Abort

  /** Sectors of a FAT for `n` clusters. */
  function FatSectors(n: nat): nat {
    (n * 4 + 8 + SS - 1) % U32 / SS
  }

  /** Sectors to the next multiple of eight. */
  function Pad(sect: nat): (n: nat)
    ensures n < ALIGN && (sect + n) % ALIGN == 0
  {
    (sect + ALIGN - 1) / ALIGN * ALIGN - sect
  }

  /** One round: sizes for clusters of `pau` sectors. */
  function TryUnit(szVol: nat, pau: nat): (r: Try)
    requires 128 <= szVol < U32 - N_SEC_TRACK && IsUnit(pau)
  {
    var n0 := Div(szVol, pau);
    var szFat := FatSectors(n0);
    if n0 <= MAX_FAT16 || n0 > MAX_FAT32 then Abort
    else
      var bData := N_SEC_TRACK + 32 + szFat;
      var szRsv := 32 + Pad(bData);
      if szVol < bData + pau * 16 - N_SEC_TRACK then Abort
      else
        var nClst := Div(szVol - szRsv - szFat, pau);
        if nClst <= MAX_FAT16 then TooFew else Good(Plan(szVol, pau, szRsv, szFat, nClst))
  }

  /** The volume has at least 64K clusters. */
  predicate Enough(szVol: nat, pau: nat) {
    0x1_0000 * pau <= szVol && (pau < 0x20 ==> szVol < 0x4_0000 * pau)
  }

  /** The volume has at least 128K clusters. */
  predicate Ample(szVol: nat, pau: nat) {
    0x2_0000 * pau <= szVol && (pau < 0x20 ==> szVol < 0x4_0000 * pau)
  }

  lemma GoodIsSane(szVol: nat, pau: nat)
    requires 128 <= szVol < U32 - N_SEC_TRACK && IsUnit(pau) && TryUnit(szVol, pau).Good?
    ensures Sane(TryUnit(szVol, pau).plan) && TryUnit(szVol, pau).plan.szVol == szVol
  {
    var p := TryUnit(szVol, pau).plan;
    FatBounds(Div(szVol, pau));
    FewerClusters(szVol, pau, p.szRsv + p.szFat);
  }

  /** With 64K clusters it is at worst too few. */
  lemma EnoughTries(szVol: nat, pau: nat)
    requires 128 <= szVol < U32 - N_SEC_TRACK && IsUnit(pau) && Enough(szVol, pau)
    ensures TryUnit(szVol, pau) != Abort
  {
    var n0 := Div(szVol, pau);
    DivBounds(szVol, pau, n0);
    FatBounds(n0);
  }

  /** With 128K clusters it succeeds. */
  lemma AmpleFits(szVol: nat, pau: nat)
    requires 128 <= szVol < U32 - N_SEC_TRACK && IsUnit(pau) && Ample(szVol, pau)
    ensures TryUnit(szVol, pau).Good?
  {
    var n0 := Div(szVol, pau);
    var szFat := FatSectors(n0);
    DivBounds(szVol, pau, n0);
    FatBounds(n0);
    var sys := 32 + Pad(N_SEC_TRACK + 32 + szFat) + szFat;
    EnoughTries(szVol, pau);
    FewerClusters(szVol, pau, sys);
    assert Div(szVol - sys, pau) > MAX_FAT16;
  }

  /** Clusters of one sector. */
  lemma SmallFits(szVol: nat)
    requires 128 <= szVol < 0x2_0000
    ensures TryUnit(szVol, 1).Good? <==> szVol >= LEAST
  {
    FatBounds(szVol);
  }

  /** The least volume that takes a FAT32: enough clusters of one sector. */
  const LEAST: nat := 66079

  lemma DivBounds(szVol: nat, pau: nat, n0: nat)
    requires IsUnit(pau) && n0 == Div(szVol, pau) && szVol < U32
    ensures n0 * pau <= szVol < n0 * pau + pau
    ensures 0x1_0000 * pau <= szVol ==> n0 >= 0x1_0000
    ensures 0x2_0000 * pau <= szVol ==> n0 >= 0x2_0000
    ensures (if pau < 0x20 then szVol < 0x4_0000 * pau else true) ==> n0 <= MAX_FAT32
  {
  }

  lemma FatBounds(n0: nat)
    requires n0 <= MAX_FAT32
    ensures 4 * (n0 + 2) <= 512 * FatSectors(n0) <= 4 * n0 + 519
  {
  }

  lemma FewerClusters(szVol: nat, pau: nat, sys: nat)
    requires IsUnit(pau) && sys <= szVol
    ensures Div(szVol - sys, pau) <= Div(szVol, pau)
    ensures Div(szVol, pau) <= Div(szVol - sys, pau) + sys + 1
    ensures pau == 1 ==> Div(szVol - sys, pau) == szVol - sys
  {
  }

  /** What a try leads to, for the unit from the table or half of it. */
  lemma TriedUnit(szVol: nat, unit: nat, pau: nat)
    requires 128 <= szVol < U32 - N_SEC_TRACK && IsUnit(unit) && (pau == unit || (unit > 1 && pau == unit / 2))
    requires (unit > 1 ==> 0x1_0000 * unit <= szVol) && (unit < 0x40 ==> szVol < 0x2_0000 * unit)
    ensures IsUnit(pau) && var r := TryUnit(szVol, pau);
            && (r.Good? ==> Sane(r.plan) && r.plan.szVol == szVol)
            && (unit == 1 ==> (r.Good? <==> szVol >= LEAST))
            && (unit > 1 && pau == unit ==> r != Abort)
            && (unit > 1 && pau != unit ==> r.Good?)
  {
    if TryUnit(szVol, pau).Good? { GoodIsSane(szVol, pau); }
    if unit == 1 {
      SmallFits(szVol);
    } else if pau == unit {
      EnoughTries(szVol, pau);
    } else {
      AmpleFits(szVol, pau);
    }
  }

  /** The layout loop: a cluster size from the table, then half of it if that gives too few clusters. */
  method MakePlan(szVol: nat) returns (ok: bool, p: Plan)
    requires 128 <= szVol < U32 - N_SEC_TRACK
    ensures ok ==> Sane(p) && p.szVol == szVol
    ensures ok <==> szVol >= LEAST
  {
    p := Plan(0, 1, 0, 0, 0);
    var unit := PickUnit(szVol);
    var szAu := 0;
    while true
      invariant szAu == 0 || (unit > 1 && szAu == unit / 2)
      decreases szAu == 0
    {
      var pau := if szAu == 0 then unit else szAu;
      var r := TryUnit(szVol, pau);
      TriedUnit(szVol, unit, pau);
      if r.Good? { return true, r.plan; }
      if r == Abort { return false, p; }
      if szAu != 0 || pau / 2 == 0 { return false, p; }
      szAu := pau / 2;
    }
  }

  // ---- sectors ----

  function Blank(): (b: Boot)
    ensures forall i | 0 <= i < SS :: b[i] == 0
  {
    seq(SS, _ => 0)
  }

  /** `data` stored at `o`. */
  method Store(b: Boot, o: nat, data: seq<byte>) returns (r: Boot)
    requires o + |data| <= SS
    ensures forall i | 0 <= i < SS :: r[i] == if o <= i < o + |data| then data[i - o] else b[i]
  {
    r := seq(SS, i requires 0 <= i < SS => if o <= i < o + |data| then data[i - o] else b[i]);
  }

  /** The bytes of the 16-bit value `w` are at `o`. */
  predicate HasWord(b: Boot, o: nat, w: nat)
    requires o + 2 <= SS
  {
    b[o] == WordByte(w, 0) && b[o + 1] == WordByte(w, 1)
  }

  /** The bytes of the 32-bit value `w` are at `o`. */
  predicate HasDword(b: Boot, o: nat, w: nat)
    requires o + 4 <= SS
  {
    && b[o] == DwordByte(w, 0) && b[o + 1] == DwordByte(w, 1)
    && b[o + 2] == DwordByte(w, 2) && b[o + 3] == DwordByte(w, 3)
  }

  predicate HasText(b: Boot, o: nat, text: seq<byte>)
    requires o + |text| <= SS
  {
    forall k | 0 <= k < |text| :: b[o + k] == text[k]
  }

  lemma LoadWord(b: Boot, o: nat, w: nat)
    requires o + 2 <= SS && w < 0x1_0000 && HasWord(b, o, w)
    ensures WordAt(b, o) == w
  {
  }

  lemma LoadDword(b: Boot, o: nat, w: nat)
    requires o + 4 <= SS && w < U32 && HasDword(b, o, w)
    ensures DwordAt(b, o) == w
  {
    DwordOfBytes(w);
  }

  /** `st_word`. */
  method StWord(b: Boot, o: nat, w: nat) returns (r: Boot)
    requires o + 2 <= SS && w < 0x1_0000
    ensures HasWord(r, o, w)
    ensures forall i | 0 <= i < SS && !(o <= i < o + 2) :: r[i] == b[i]
  {
    r := Store(b, o, [WordByte(w, 0), WordByte(w, 1)]);
  }

  /** `st_dword`. */
  method StDword(b: Boot, o: nat, w: nat) returns (r: Boot)
    requires o + 4 <= SS && w < U32
    ensures HasDword(r, o, w)
    ensures forall i | 0 <= i < SS && !(o <= i < o + 4) :: r[i] == b[i]
  {
    r := Store(b, o, [DwordByte(w, 0), DwordByte(w, 1), DwordByte(w, 2), DwordByte(w, 3)]);
  }

  const JUMP_OEM: seq<byte> := [0xEB, 0xFE, 0x90, 0x4D, 0x53, 0x44, 0x4F, 0x53, 0x35, 0x2E, 0x30]
  const NO_NAME: seq<byte> := [0x4E, 0x4F, 0x20, 0x4E, 0x41, 0x4D, 0x45, 0x20, 0x20, 0x20, 0x20]

  /** The fields of the boot sector that every FAT type has. */
  ghost predicate CommonPart(b: Boot, p: Plan) {
    && HasText(b, 0, JUMP_OEM) && HasWord(b, 11, SS) && b[13] == p.pau && HasWord(b, 14, p.szRsv) && b[16] == 1
    && HasWord(b, 17, 0) && HasWord(b, 22, 0) && HasSectors(b, p.szVol)
    && b[21] == 0xF8 && HasWord(b, 24, 63) && HasWord(b, 26, 255) && HasDword(b, 28, N_SEC_TRACK)
  }

  /** The size of the volume is stored in one of two places. */
  predicate HasSectors(b: Boot, szVol: nat) {
    HasWord(b, 19, if szVol < 0x1_0000 then szVol else 0) && HasDword(b, 32, if szVol < 0x1_0000 then 0 else szVol)
  }

  ghost predicate IsVbr(b: Boot, p: Plan, vsn: nat) {
    && CommonPart(b, p) && Fat32Part(b, p)
    && HasDword(b, 67, vsn) && b[64] == 0x80 && b[66] == 0x29 && HasText(b, 71, NO_NAME)
    && HasText(b, 82, FAT32_NAME) && HasWord(b, 510, 0xAA55)
  }

  /** The fields fit where they are stored. */
  predicate Storable(p: Plan) {
    p.pau < 0x100 && p.szRsv < 0x1_0000 && p.szFat < U32 && p.szVol < U32
  }

  method BuildCommon(p: Plan) returns (b: Boot)
    requires Storable(p)
    ensures CommonPart(b, p) && forall i | 36 <= i < SS :: b[i] == 0
  {
    b := Store(Blank(), 0, JUMP_OEM);
    b := StWord(b, 11, SS);
    b := Store(b, 13, [p.pau]);
    b := StWord(b, 14, p.szRsv);
    b := Store(b, 16, [1]);
    b := StWord(b, 17, 0);
    assert forall i | 19 <= i < SS :: b[i] == 0;
    b := StSectors(b, p.szVol);
    b := Store(b, 21, [0xF8]);
    b := StWord(b, 24, 63);
    b := StWord(b, 26, 255);
    b := StDword(b, 28, N_SEC_TRACK);
  }

  /** The size of the volume, in one of two places. */
  method StSectors(b: Boot, szVol: nat) returns (r: Boot)
    requires szVol < U32 && (forall i | 19 <= i < SS :: b[i] == 0)
    ensures HasSectors(r, szVol)
    ensures forall i | 0 <= i < SS && !(19 <= i < 21) && !(32 <= i < 36) :: r[i] == b[i]
  {
    if szVol < 0x1_0000 { r := StWord(b, 19, szVol); } else { r := StDword(b, 32, szVol); }
  }

  /** The numbers that only FAT32 has. */
  ghost predicate Fat32Part(b: Boot, p: Plan) {
    HasDword(b, 36, p.szFat) && HasWord(b, 42, 0) && HasDword(b, 44, 2) && HasWord(b, 48, 1) && HasWord(b, 50, 6)
  }

  method StNumbers(b: Boot, p: Plan) returns (r: Boot)
    requires Storable(p) && b[42] == 0 && b[43] == 0
    ensures Fat32Part(r, p)
    ensures forall i | 0 <= i < SS && !(36 <= i < 52) :: r[i] == b[i]
  {
    r := StDword(b, 36, p.szFat);
    r := StDword(r, 44, 2);
    r := StWord(r, 48, 1);
    r := StWord(r, 50, 6);
  }

  /** The FAT32 boot sector; `vsn` is the volume serial number. */
  method BuildVbr(p: Plan, vsn: nat) returns (b: Boot)
    requires Storable(p) && vsn < U32
    ensures IsVbr(b, p, vsn)
  {
    var c := BuildCommon(p);
    var d := StNumbers(c, p);
    b := StDword(d, 67, vsn);
    b := Store(b, 64, [0x80]);
    b := Store(b, 66, [0x29]);
    b := Store(b, 71, NO_NAME);
    b := Store(b, 82, FAT32_NAME);
    b := StWord(b, 510, 0xAA55);
    CommonKept(c, b, p);
  }

  lemma CommonKept(b: Boot, b': Boot, p: Plan)
    requires CommonPart(b, p) && forall i | 0 <= i < 36 :: b'[i] == b[i]
    ensures CommonPart(b', p)
  {
  }

  ghost predicate IsInfo(b: Boot, p: Plan) {
    && HasDword(b, 0, 0x41615252) && HasDword(b, 484, 0x61417272) && HasWord(b, 510, 0xAA55)
    && p.nClst > 0 && HasDword(b, 488, p.nClst - 1) && HasDword(b, 492, 2)
  }

  method BuildInfo(p: Plan) returns (b: Boot)
    requires Sane(p)
    ensures IsInfo(b, p)
  {
    b := StDword(Blank(), 0, 0x41615252);
    b := StDword(b, 484, 0x61417272);
    b := StDword(b, 488, p.nClst - 1);
    b := StDword(b, 492, 2);
    b := StWord(b, 510, 0xAA55);
  }

  /** Heads enough for at most 1024 cylinders, from 8 on by doubling, or else 255. */
  method PickHeads(szDrv: nat) returns (hd: nat)
    ensures IsHeads(szDrv, hd)
  {
    hd := 8;
    while hd != 0 && szDrv / hd / N_SEC_TRACK > 1024
      invariant hd in {0, 8, 16, 32, 64, 128} && (hd == 0 ==> szDrv / 128 / N_SEC_TRACK > 1024)
      invariant hd > 8 ==> szDrv / (hd / 2) / N_SEC_TRACK > 1024
      decreases if hd == 0 then 0 else 256 - hd
    {
      hd := 2 * hd % 256;
    }
    if hd == 0 { hd := 255; }
  }

  /** The first of the numbers of heads that is enough. */
  predicate IsHeads(szDrv: nat, hd: nat) {
    && hd in {8, 16, 32, 64, 128, 255}
    && (hd < 255 ==> szDrv / hd / N_SEC_TRACK <= 1024)
    && (hd > 8 ==> szDrv / (if hd == 255 then 128 else hd / 2) / N_SEC_TRACK > 1024)
  }

  /** The three bytes at `o` are head, sector and cylinder of sector `lba`; the cylinder is cut to ten bits. */
  predicate HasChs(b: Boot, o: nat, lba: nat, hd: nat)
    requires o + 3 <= SS && hd > 0
  {
    && b[o] == lba / N_SEC_TRACK % hd && b[o + 1] % 64 == lba % N_SEC_TRACK + 1
    && (b[o + 1] as int) / 64 * 256 + b[o + 2] == lba / N_SEC_TRACK / hd % 1024
  }

  /** The sector that head, sector and cylinder at `o` stand for. */
  function ChsAt(b: Boot, o: nat, hd: nat): int
    requires o + 3 <= SS
  {
    (((b[o + 1] as int) / 64 * 256 + b[o + 2]) * hd + b[o]) * N_SEC_TRACK + b[o + 1] % 64 - 1
  }

  /** Sectors of the first 1024 cylinders are found by them. */
  lemma ChsBack(b: Boot, o: nat, lba: nat, hd: nat)
    requires o + 3 <= SS && hd > 0 && HasChs(b, o, lba, hd) && lba / N_SEC_TRACK / hd < 1024
    ensures ChsAt(b, o, hd) == lba
  {
    var track := lba / N_SEC_TRACK;
    DivModOf(track, hd);
  }

  method StChs(b: Boot, o: nat, lba: nat, hd: nat) returns (r: Boot)
    requires o + 3 <= SS && 0 < hd < 256
    ensures HasChs(r, o, lba, hd)
    ensures forall i | 0 <= i < SS && !(o <= i < o + 3) :: r[i] == b[i]
  {
    var cy := lba / N_SEC_TRACK / hd;
    var sc := lba % N_SEC_TRACK + 1;
    ChsBytes(cy, sc);
    r := Store(b, o, [lba / N_SEC_TRACK % hd, cy / 256 % 4 * 64 + sc, cy % 256]);
  }

  lemma ChsBytes(cy: nat, sc: nat)
    requires 1 <= sc < 64
    ensures var x := cy / 256 % 4 * 64 + sc; x < 256 && x % 64 == sc && x / 64 * 256 + cy % 256 == cy % 1024
  {
  }

  /** The partition entry at `pte`: a FAT32 partition from sector `start` on. */
  ghost predicate IsEntry(b: Boot, pte: nat, start: nat, size: nat, hd: nat)
    requires pte + 16 <= SS && hd > 0
  {
    && b[pte] == 0 && b[pte + 4] == 0x0C && HasDword(b, pte + 8, start) && HasDword(b, pte + 12, size)
    && size > 0 && HasChs(b, pte + 1, start, hd) && HasChs(b, pte + 5, start + size - 1, hd)
  }

  /** A partition table whose one partition is the drive from sector 63 on. */
  ghost predicate IsMbr(b: Boot, szDrv: nat) {
    && szDrv > N_SEC_TRACK && (exists hd | IsHeads(szDrv, hd) :: IsEntry(b, 446, N_SEC_TRACK, szDrv - N_SEC_TRACK, hd))
    && (forall i | 0 <= i < 446 :: b[i] == 0) && (forall i | 462 <= i < 510 :: b[i] == 0) && HasWord(b, 510, 0xAA55)
  }

  /** One entry of the partition table. */
  method StEntry(b: Boot, pte: nat, start: nat, size: nat, hd: nat) returns (r: Boot)
    requires pte + 16 <= SS && 0 < hd < 256 && 0 < size && start + size < U32 && b[pte] == 0
    ensures IsEntry(r, pte, start, size, hd)
    ensures forall i | 0 <= i < SS && !(pte <= i < pte + 16) :: r[i] == b[i]
  {
    r := StDword(b, pte + 8, start);
    r := StDword(r, pte + 12, size);
    r := Store(r, pte + 4, [0x0C]);
    r := StChs(r, pte + 1, start, hd);
    r := StChs(r, pte + 5, start + size - 1, hd);
  }

  /** `create_partition` with one partition that takes the rest of the drive. */
  method BuildMbr(szDrv: nat, szVol: nat) returns (b: Boot)
    requires szVol + N_SEC_TRACK == szDrv < U32 && 128 <= szVol
    ensures IsMbr(b, szDrv)
  {
    var hd := PickHeads(szDrv);
    b := Blank();
    var next, i := N_SEC_TRACK, 0;
    while i < 4 && next != 0 && next < szDrv
      invariant 0 <= i <= 4 && (i == 0 ==> next == N_SEC_TRACK && b[446] == 0)
      invariant i > 0 ==> next >= szDrv && IsEntry(b, 446, N_SEC_TRACK, szVol, hd)
      invariant (forall k | 0 <= k < 446 :: b[k] == 0) && forall k | 462 <= k < SS :: b[k] == 0
    {
      var part := if i == 0 then szVol else 0;
      if next + part > szDrv { part := szDrv - next; }
      if part == 0 { break; }
      b := StEntry(b, 446 + 16 * i, next, part, hd);
      next, i := next + part, i + 1;
    }
    b := StWord(b, 510, 0xAA55);
    assert IsHeads(szDrv, hd);
  }

  /** The first sector of the FAT: two reserved entries and the root directory's cluster. */
  method BuildFat() returns (b: Boot)
    ensures IsFirst(b)
  {
    b := StDword(Blank(), 0, 0xFFFF_FFF8);
    b := StDword(b, 4, 0xFFFF_FFFF);
    b := StDword(b, 8, 0x0FFF_FFFF);
  }

  ghost predicate IsFirst(b: Boot) {
    && HasDword(b, 0, 0xFFFF_FFF8) && HasDword(b, 4, 0xFFFF_FFFF) && HasDword(b, 8, 0x0FFF_FFFF)
    && forall i | 12 <= i < SS :: b[i] == 0
  }

  // ---- the drive ----

  /** The drive: writes past its end fail, and any write may fail and leave what it likes where it went. */
  class Drive {
    var sectors: seq<Sector>

    ghost predicate Valid()
      reads this
    {
      AllSized(sectors, SS)
    }

    method Write(sect: nat, data: seq<Sector>) returns (ok: bool)
      requires Valid() && AllSized(data, SS)
      modifies this
      ensures Valid() && |sectors| == |old(sectors)|
      ensures forall i | 0 <= i < |sectors| && !(sect <= i < sect + |data|) :: sectors[i] == old(sectors)[i]
      ensures ok ==> sect + |data| <= |sectors| && forall i | sect <= i < sect + |data| :: sectors[i] == data[i - sect]
    {
      ok := sect + |data| <= |sectors|;
      if !ok { return; }
      var wrote := data;
      if * {
        ok := false;
        wrote := Torn(|data|);
      }
      sectors := sectors[..sect] + wrote + sectors[sect + |data|..];
    }
  }

  /** Anything at all, in sectors. */
  method Torn(n: nat) returns (data: seq<Sector>)
    ensures |data| == n && AllSized(data, SS)
  {
    data := [];
    while |data| < n
      invariant |data| <= n && AllSized(data, SS)
    {
      assert |Blank()| == SS;
      var sec: Sector :| |sec| == SS;
      data := data + [sec];
    }
  }

  ghost predicate Zero(sec: Sector) {
    |sec| == SS && forall i | 0 <= i < SS :: sec[i] == 0
  }

  /** A run of blank sectors but for `first`, through a buffer of eight sectors that is cleared after the first write. */
  method WriteRun(drive: Drive, sect: nat, count: nat, first: Boot) returns (ok: bool)
    requires drive.Valid() && count > 0
    modifies drive
    ensures drive.Valid() && |drive.sectors| == |old(drive.sectors)|
    ensures forall i | 0 <= i < |drive.sectors| && !(sect <= i < sect + count) ::
              drive.sectors[i] == old(drive.sectors)[i]
    ensures ok ==> sect + count <= |drive.sectors| && drive.sectors[sect] == first
                   && forall i | sect < i < sect + count :: Zero(drive.sectors[i])
  {
    var at, left := sect, count;
    var head: Boot := first;
    ghost var was := drive.sectors;
    while left > 0
      invariant 0 <= left <= count && at == sect + count - left
      invariant drive.Valid() && |drive.sectors| == |old(drive.sectors)|
      invariant forall i | 0 <= i < |was| && !(sect <= i < at) :: drive.sectors[i] == was[i]
      invariant if at == sect then head == first
                else Zero(head) && at <= |drive.sectors| && drive.sectors[sect] == first
                     && forall i | sect < i < at :: Zero(drive.sectors[i])
    {
      var n := if left > BUF_SECTORS then BUF_SECTORS else left;
      var blank := Blank();
      var buf: seq<Sector> := [head] + seq(n - 1, _ => blank);
      ok := drive.Write(at, buf);
      if !ok { return; }
      head := blank;
      at, left := at + n, left - n;
    }
    ok := true;
  }

  // ---- f_mkfs ----

  function FatBase(p: Plan): nat {
    N_SEC_TRACK + p.szRsv
  }

  function DataBase(p: Plan): nat {
    N_SEC_TRACK + p.szRsv + p.szFat
  }

  /** The FAT and the root directory of a new volume. */
  ghost predicate FreshData(s: seq<Sector>, p: Plan) {
    && AllSized(s, SS) && p.szFat > 0 && DataBase(p) + p.pau <= |s|
    && IsFirst(s[FatBase(p)])
    && (forall i | FatBase(p) < i < DataBase(p) + p.pau :: Zero(s[i]))
  }

  /** A formatted drive. */
  ghost predicate Formatted(s: seq<Sector>, p: Plan, vsn: nat) {
    FreshData(s, p) && p.szRsv >= 32 && IsMbr(s[0], N_SEC_TRACK + p.szVol) && IsVbr(s[N_SEC_TRACK], p, vsn)
  }

  /** The copies of the boot sector and of the FSInfo sector. */
  ghost predicate Copied(s: seq<Sector>, p: Plan, vsn: nat) {
    |s| > N_SEC_TRACK + 7 && AllSized(s, SS) && IsVbr(s[N_SEC_TRACK + 6], p, vsn) && IsInfo(s[N_SEC_TRACK + 7], p)
  }

  /** The boot sector and its copy, the FSInfo sector and its copy; only the first write is looked at. */
  method WriteReserved(drive: Drive, p: Plan, vsn: nat) returns (ok: bool, noted: bool, copied: bool)
    requires drive.Valid() && Sane(p) && vsn < U32
    modifies drive
    ensures drive.Valid() && |drive.sectors| == |old(drive.sectors)|
    ensures ok ==> |drive.sectors| > N_SEC_TRACK && IsVbr(drive.sectors[N_SEC_TRACK], p, vsn)
    ensures noted ==> |drive.sectors| > N_SEC_TRACK + 1 && IsInfo(drive.sectors[N_SEC_TRACK + 1], p)
    ensures copied ==> Copied(drive.sectors, p, vsn)
  {
    noted, copied := false, false;
    var vbr := BuildVbr(p, vsn);
    ok := drive.Write(N_SEC_TRACK, [vbr]);
    if !ok { return; }
    assert drive.sectors[N_SEC_TRACK] == vbr;
    var one := drive.Write(N_SEC_TRACK + 6, [vbr]);
    assert one ==> drive.sectors[N_SEC_TRACK + 6] == vbr;
    var info := BuildInfo(p);
    var two := drive.Write(N_SEC_TRACK + 7, [info]);
    assert two ==> drive.sectors[N_SEC_TRACK + 7] == info;
    noted := drive.Write(N_SEC_TRACK + 1, [info]);
    copied := one && two;
    assert drive.sectors[N_SEC_TRACK] == vbr;
    assert noted ==> drive.sectors[N_SEC_TRACK + 1] == info;
  }

  /** The FAT and the root directory's cluster. */
  method WriteData(drive: Drive, p: Plan) returns (ok: bool)
    requires drive.Valid() && Sane(p)
    modifies drive
    ensures drive.Valid() && |drive.sectors| == |old(drive.sectors)|
    ensures forall i | 0 <= i < |drive.sectors| && i < FatBase(p) :: drive.sectors[i] == old(drive.sectors)[i]
    ensures ok ==> FreshData(drive.sectors, p)
  {
    var first := BuildFat();
    ok := WriteRun(drive, FatBase(p), p.szFat, first);
    if !ok { return; }
    var root := Blank();
    ok := WriteRun(drive, DataBase(p), p.pau, root);
    if !ok { return; }
    forall i | FatBase(p) < i < DataBase(p) + p.pau
      ensures Zero(drive.sectors[i])
    {
      assert i == DataBase(p) ==> drive.sectors[i] == root;
    }
  }

  /** `f_mkfs` for a FAT32 partition on a drive said to have `total` sectors; `noted` when the FSInfo write succeeded. */
  method Format(drive: Drive, total: nat, vsn: nat) returns (ok: bool, p: Plan, noted: bool, copied: bool)
    requires drive.Valid() && total < U32 && vsn < U32
    modifies drive
    ensures drive.Valid() && |drive.sectors| == |old(drive.sectors)|
    ensures ok ==> Sane(p) && p.szVol == total - N_SEC_TRACK && Formatted(drive.sectors, p, vsn)
    ensures ok && noted ==> IsInfo(drive.sectors[N_SEC_TRACK + 1], p)
    ensures ok && copied ==> Copied(drive.sectors, p, vsn)
    ensures total < N_SEC_TRACK + LEAST ==> !ok && drive.sectors == old(drive.sectors)
  {
    p, noted, copied := Plan(0, 1, 0, 0, 0), false, false;
    if total <= N_SEC_TRACK || total - N_SEC_TRACK < 128 { return false, p, false, false; }
    ok, p := MakePlan(total - N_SEC_TRACK);
    if !ok { return; }
    ok, noted, copied := WriteReserved(drive, p, vsn);
    if !ok { return; }
    ghost var s1 := drive.sectors;
    ok := WriteData(drive, p);
    if !ok { return; }
    ghost var s2 := drive.sectors;
    var mbr := BuildMbr(total, p.szVol);
    ok := drive.Write(0, [mbr]);
    if !ok { return; }
    assert drive.sectors[0] == mbr;
    FreshKept(s2, drive.sectors, p);
    assert drive.sectors[N_SEC_TRACK] == s2[N_SEC_TRACK] == s1[N_SEC_TRACK];
    assert drive.sectors[N_SEC_TRACK + 1] == s2[N_SEC_TRACK + 1] == s1[N_SEC_TRACK + 1];
    assert drive.sectors[N_SEC_TRACK + 6] == s1[N_SEC_TRACK + 6] && drive.sectors[N_SEC_TRACK + 7] == s1[N_SEC_TRACK + 7];
    if * { ok := false; }
  }

  lemma FreshKept(s: seq<Sector>, s': seq<Sector>, p: Plan)
    requires FreshData(s, p) && AllSized(s', SS) && |s'| == |s| && forall i | 1 <= i < |s| :: s'[i] == s[i]
    ensures FreshData(s', p)
  {
  }

  // ---- and mount ----

  /** The geometry of the new volume. */
  function NewGeometry(p: Plan): Geometry {
    Geometry(Fat32, SS, 1, FatBase(p), p.szFat, p.nClst + 2, p.pau, DataBase(p), 0, 0)
  }

  /** What `mount_volume` reads in a boot sector. */
  ghost predicate Describes(b: Boot, p: Plan) {
    && WordAt(b, 11) == SS && b[13] == p.pau && WordAt(b, 14) == p.szRsv && b[16] == 1 && WordAt(b, 17) == 0
    && WordAt(b, 42) == 0 && DwordAt(b, 44) == 2 && WordAt(b, 48) == 1
    && FatSize(b) == p.szFat && TotalSectors(b) == p.szVol
  }

  lemma VbrFields(b: Boot, p: Plan, vsn: nat)
    requires IsVbr(b, p, vsn) && Storable(p)
    ensures Describes(b, p)
  {
    LoadWord(b, 11, SS);
    LoadWord(b, 14, p.szRsv);
    LoadWord(b, 17, 0);
    LoadWord(b, 22, 0);
    LoadWord(b, 42, 0);
    LoadWord(b, 48, 1);
    LoadDword(b, 36, p.szFat);
    LoadDword(b, 44, 2);
    LoadSectors(b, p.szVol);
  }

  lemma LoadSectors(b: Boot, szVol: nat)
    requires HasSectors(b, szVol) && szVol < U32
    ensures TotalSectors(b) == szVol
  {
    if szVol < 0x1_0000 {
      LoadWord(b, 19, szVol);
      LoadDword(b, 32, 0);
    } else {
      LoadWord(b, 19, 0);
      LoadDword(b, 32, szVol);
    }
  }

  lemma VbrClusters(b: Boot, p: Plan)
    requires Describes(b, p) && Sane(p)
    ensures ClustersOf(b) == p.nClst && Mountable(b)
  {
    VbrSystem(b, p);
    VbrCount(b, p.pau, p.szRsv + p.szFat, p.szVol);
    FatCovers(p.nClst + 2, p.szFat);
  }

  lemma VbrCount(b: Boot, unit: nat, sys: nat, total: nat)
    requires WordAt(b, 11) == SS && b[13] == unit && b[16] == 1 && WordAt(b, 17) == 0 && WordAt(b, 14) != 0 && IsUnit(unit)
    requires SystemSectors(b) == sys <= TotalSectors(b) == total < U32
    ensures ClustersOf(b) == Div(total - sys, unit)
  {
    Below(sys);
  }

  lemma FatCovers(n: nat, szFat: nat)
    requires 4 * n <= 512 * szFat
    ensures szFat >= (FatBytes(Fat32, n) + (SS - 1)) / SS
  {
  }

  lemma VbrSystem(b: Boot, p: Plan)
    requires Describes(b, p)
    ensures SystemSectors(b) == p.szRsv + p.szFat
  {
  }

  lemma Below(x: nat)
    requires x < U32
    ensures x % U32 == x
  {
  }

  /** No sector number of the planned volume is cut. */
  lemma VbrPlaces(b: Boot, p: Plan)
    requires Describes(b, p) && p.szRsv < 40 && p.szFat < 0x100_0000 && MAX_FAT16 < p.nClst <= MAX_FAT32
    ensures NoCut(b, N_SEC_TRACK) && GeometryOf(b, N_SEC_TRACK, p.nClst) == NewGeometry(p)
  {
    PlainPlaces(p);
    SamePlaces(b, N_SEC_TRACK, p.nClst, p.szRsv, p.szFat, p.szRsv + p.szFat);
  }

  lemma SamePlaces(b: Boot, base: nat, n: nat, rsv: nat, area: nat, sys: nat)
    requires n <= MAX_FAT32 && WordAt(b, 14) == rsv && FatArea(b) == area && SystemSectors(b) == sys && WordAt(b, 17) == 0
    ensures GeometryOf(b, base, n)
         == Geometry(TypeOf(n), SS, b[16], (base + rsv) % U32, FatSize(b), n + 2, b[13], DataStart(base, sys), 0, 0)
  {
  }

  lemma PlainPlaces(p: Plan)
    requires p.szRsv < 40 && p.szFat < 0x100_0000
    ensures (N_SEC_TRACK + p.szRsv) % U32 == FatBase(p)
    ensures DataStart(N_SEC_TRACK, p.szRsv + p.szFat) == DataBase(p)
  {
  }

  /** The new drive's first partition is found as a FAT volume. */
  lemma FoundFirst(s: seq<Sector>, p: Plan, vsn: nat)
    requires Formatted(s, p, vsn) && Sane(p)
    ensures FirstIsFat(s) && Partition(s[0], 0) == N_SEC_TRACK
  {
    var mbr: Boot, vbr: Boot := s[0], s[N_SEC_TRACK];
    LoadWord(mbr, 510, 0xAA55);
    LoadDword(mbr, 446 + 8, N_SEC_TRACK);
    LoadWord(vbr, 510, 0xAA55);
    assert EXFAT_HEAD[0] == 0xEB && EXFAT_HEAD[1] == 0x76;
    assert JUMP_OEM[0] == 0xEB && JUMP_OEM[1] == 0xFE && vbr[..11] == JUMP_OEM;
    assert mbr[..11][0] == 0 && vbr[..11][1] == 0xFE;
    assert vbr[82..90] == FAT32_NAME;
  }

  /** Every byte of the FAT past the third entry is zero. */
  lemma FreshBytes(s: seq<Sector>, p: Plan, i: nat)
    requires FreshData(s, p) && i < Times(SS, p.szFat)
    ensures |Bytes(s, FatBase(p), p.szFat)| == Times(SS, p.szFat)
    ensures Bytes(s, FatBase(p), p.szFat)[i] == if i < SS then s[FatBase(p)][i] else 0
  {
    var run := s[FatBase(p)..DataBase(p)];
    var sec, o := i / SS, i % SS;
    TimesIs(SS, sec);
    TimesIs(SS, p.szFat);
    FlatIndex(run, SS, sec, o);
  }

  lemma FreshView(s: seq<Sector>, p: Plan)
    requires Sane(p) && FreshData(s, p) && N_SEC_TRACK + p.szVol <= |s|
    ensures ViewOk(NewGeometry(p), s)
  {
    var x := p.szVol - p.szRsv - p.szFat;
    DivModOf(x, p.pau);
    TimesIs(p.pau, p.nClst);
    TimesIs(SS, p.szFat);
  }

  lemma FreshDword(s: seq<Sector>, p: Plan, c: nat)
    requires FreshData(s, p) && 2 <= c && (c + 1) * 4 <= Times(SS, p.szFat)
    ensures |Bytes(s, FatBase(p), p.szFat)| == Times(SS, p.szFat)
    ensures DwordAt(Bytes(s, FatBase(p), p.szFat), c * 4) == if c == 2 then 0x0FFF_FFFF else 0
  {
    FreshBytes(s, p, c * 4);
    FreshBytes(s, p, c * 4 + 1);
    FreshBytes(s, p, c * 4 + 2);
    FreshBytes(s, p, c * 4 + 3);
    LoadDword(s[FatBase(p)], 8, 0x0FFF_FFFF);
  }

  lemma FreshEntry(s: seq<Sector>, p: Plan, c: nat)
    requires 4 * (p.nClst + 2) <= SS * p.szFat && FreshData(s, p) && ViewOk(NewGeometry(p), s) && 2 <= c < p.nClst + 2
    ensures TabOf(NewGeometry(p), s)[c] == if c == 2 then 0x0FFF_FFFF else 0
  {
    var g := NewGeometry(p);
    var fat := FatOf(g, s);
    TableAt(Fat32, g.nFatent, fat, c);
    TimesIs(SS, p.szFat);
    FreshDword(s, p, c);
    EntryIs(fat, c, if c == 2 then 0x0FFF_FFFF else 0);
  }

  lemma EntryIs(fat: seq<byte>, c: nat, v: nat)
    requires FatBytes(Fat32, c + 1) <= |fat| && DwordAt(fat, c * 4) == v < 0x1000_0000
    ensures Entry(Fat32, fat, c) == v
  {
  }

  /** Only cluster 2 is in use, and it ends its chain. */
  ghost predicate RootOnly(tab: seq<nat>) {
    IsChain(tab, [2]) && WellFormed(tab) && UsedSet(tab) == {2}
  }

  /** The FAT of a new volume has only the root directory's cluster in use. */
  lemma FreshTable(s: seq<Sector>, p: Plan)
    requires Sane(p) && FreshData(s, p) && ViewOk(NewGeometry(p), s)
    ensures RootOnly(TabOf(NewGeometry(p), s)) && |FreeSet(TabOf(NewGeometry(p), s))| == p.nClst - 1
  {
    var tab := TabOf(NewGeometry(p), s);
    forall c | 2 <= c < |tab|
      ensures tab[c] == if c == 2 then 0x0FFF_FFFF else 0
    {
      FreshEntry(s, p, c);
    }
    OneUsed(tab);
  }

  lemma OneUsed(tab: seq<nat>)
    requires 2 < |tab| <= 0x0FFF_FFFF && forall c | 2 <= c < |tab| :: tab[c] == if c == 2 then 0x0FFF_FFFF else 0
    ensures RootOnly(tab) && |FreeSet(tab)| == |tab| - 3
  {
    assert tab[2] == 0x0FFF_FFFF;
    assert ChainFrom(tab, [2], 2);
    assert UsedSet(tab) == {2};
    FreePlusUsed(tab);
  }

  /** All that `Mount` looks at on a formatted drive. */
  lemma FormattedMounts(s: seq<Sector>, p: Plan, vsn: nat)
    requires Formatted(s, p, vsn) && Sane(p)
    ensures FirstIsFat(s) && Partition(s[0], 0) == N_SEC_TRACK
    ensures Mountable(s[N_SEC_TRACK]) && NoCut(s[N_SEC_TRACK], N_SEC_TRACK)
    ensures GeometryOf(s[N_SEC_TRACK], N_SEC_TRACK, ClustersOf(s[N_SEC_TRACK])) == NewGeometry(p)
    ensures WordAt(s[N_SEC_TRACK], 48) == 1 && DwordAt(s[N_SEC_TRACK], 44) == 2
  {
    FoundFirst(s, p, vsn);
    VbrFields(s[N_SEC_TRACK], p, vsn);
    VbrClusters(s[N_SEC_TRACK], p);
    VbrPlaces(s[N_SEC_TRACK], p);
  }

  /**
   * Format, then mount: the volume is found and mounted as planned, with its root directory in cluster 2; if the drive
   * is as large as was said, its FAT is well formed with that cluster alone in use, and the free count is the number of
   * free clusters whenever the FSInfo sector could be written.
   */
  method FormatThenMount(drive: Drive, total: nat, vsn: nat)
    returns (ok: bool, p: Plan, r: MountResult, noted: bool)
    requires drive.Valid() && total < U32 && vsn < U32
    modifies drive
    ensures drive.Valid() && |drive.sectors| == |old(drive.sectors)|
    ensures ok ==> r.Ok? && r.fs.g == NewGeometry(p) && ValidGeometry(r.fs.g) && r.fs.dirBase == 2
    ensures ok ==> p.szVol == total - N_SEC_TRACK
    ensures ok ==>
              && |drive.sectors| > 0 && Partition(drive.sectors[0], 0) + PartitionSize(drive.sectors[0], 0) == total
              && Partition(drive.sectors[0], 0) < r.fs.g.fatBase && DataEnd(r.fs.g) <= total
    ensures ok && noted ==> r.fs.freeClst == p.nClst - 1 && r.fs.lastClst == 2
    ensures ok && total <= |drive.sectors| ==> ViewOk(r.fs.g, drive.sectors) && RootOnly(TabOf(r.fs.g, drive.sectors))
    ensures ok && total <= |drive.sectors| && noted ==> r.fs.freeClst == |FreeSet(TabOf(r.fs.g, drive.sectors))|
  {
    var copied;
    ok, p, noted, copied := Format(drive, total, vsn);
    r := DiskError;
    if !ok { return; }
    ghost var s := drive.sectors;
    if total <= |s| {
      FreshView(s, p);
      FreshTable(s, p);
    }
    if noted { InfoReads(s[N_SEC_TRACK + 1], p); }
    MbrPlaces(s[0], total);
    EndsInside(p);
    r := MountNew(drive.sectors, p, vsn);
  }

  /** Sectors of partition `i` of the MBR. */
  function PartitionSize(mbr: Sector, i: nat): nat
    requires |mbr| == SS && i < 4
  {
    DwordAt(mbr, 446 + 16 * i + 12)
  }

  lemma MbrPlaces(mbr: Boot, total: nat)
    requires IsMbr(mbr, total) && total < U32
    ensures Partition(mbr, 0) == N_SEC_TRACK && PartitionSize(mbr, 0) == total - N_SEC_TRACK
  {
    LoadDword(mbr, 446 + 8, N_SEC_TRACK);
    LoadDword(mbr, 446 + 12, total - N_SEC_TRACK);
  }

  /** The clusters end before the volume does. */
  lemma EndsInside(p: Plan)
    requires p.pau > 0 && p.szRsv + p.szFat <= p.szVol && p.nClst == Div(p.szVol - p.szRsv - p.szFat, p.pau)
    ensures DataEnd(NewGeometry(p)) <= N_SEC_TRACK + p.szVol
  {
    DivModOf(p.szVol - p.szRsv - p.szFat, p.pau);
    TimesIs(p.pau, p.nClst);
  }

  method MountNew(s: seq<Sector>, ghost p: Plan, ghost vsn: nat) returns (r: MountResult)
    requires Formatted(s, p, vsn) && Sane(p)
    ensures r.Ok? && r.fs.g == NewGeometry(p) && ValidGeometry(r.fs.g) && r.fs.dirBase == 2
    ensures InfoOk(s, N_SEC_TRACK + 1) ==>
              r.fs.freeClst == DwordAt(s[N_SEC_TRACK + 1], 488) && r.fs.lastClst == DwordAt(s[N_SEC_TRACK + 1], 492)
  {
    FormattedMounts(s, p, vsn);
    var base;
    r, base := Mount(s);
  }

  lemma InfoReads(b: Boot, p: Plan)
    requires IsInfo(b, p) && p.nClst < U32
    ensures DwordAt(b, 0) == 0x41615252 && DwordAt(b, 484) == 0x61417272 && WordAt(b, 510) == 0xAA55
    ensures DwordAt(b, 488) == p.nClst - 1 && DwordAt(b, 492) == 2
  {
    LoadDword(b, 0, 0x41615252);
    LoadDword(b, 484, 0x61417272);
    LoadWord(b, 510, 0xAA55);
    LoadDword(b, 488, p.nClst - 1);
    LoadDword(b, 492, 2);
  }
}
