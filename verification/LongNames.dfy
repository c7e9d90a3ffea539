/** Long file names on FAT volumes: writing them into directory entries and reading them back. */
module LongNames {
  import opened FatCodec
  import opened Sums

  const MAX_LFN: nat := 255
  const SZDIRE: nat := 32
  const DELETED: nat := 0xE5
  const DOT: nat := 0x2E

  type Entry = e: seq<byte> | |e| == SZDIRE witness seq(SZDIRE, _ => 0)

  /** A name of 1 to 255 units, none of them a terminator or a filler. */
  predicate IsName(name: seq<nat>) {
    1 <= |name| <= MAX_LFN && forall i | 0 <= i < |name| :: 0 < name[i] < 0xFFFF
  }

  /** The working buffer that holds the name and its terminator. */
  predicate Buffered(buf: seq<nat>, name: seq<nat>) {
    |name| < |buf| == MAX_LFN + 1 && buf[..|name|] == name && buf[|name|] == 0
  }

  /** Where unit `s` of an entry is. */
  function Ofs(s: nat): (o: nat)
    requires s < 13
    ensures 1 <= o && o + 1 < SZDIRE && o !in {10, 11, 12, 13, 25, 26, 27} && o + 1 !in {11, 12, 13, 26, 27}
    ensures forall t | 0 <= t < s :: Ofs(t) + 1 < o
  {
    if s < 5 then 1 + 2 * s else if s < 11 then 14 + 2 * (s - 5) else 28 + 2 * (s - 11)
  }

  function UnitAt(e: seq<byte>, s: nat): nat
    requires |e| == SZDIRE && s < 13
  {
    Word(e[Ofs(s)], e[Ofs(s) + 1])
  }

  /** Unit `i` of the name as it is stored: the terminator after the name, fillers after that. */
  function Stored(name: seq<nat>, i: nat): nat {
    if i < |name| then name[i] else if i == |name| then 0 else 0xFFFF
  }

  /** Entries for a name of this length. */
  function Parts(len: nat): nat {
    (len + 12) / 13
  }

  /** `e` is part `ord` of the name, tied to a short entry with checksum `sum`. */
  ghost predicate IsPart(e: seq<byte>, name: seq<nat>, ord: nat, sum: byte) {
    && |e| == SZDIRE && 1 <= ord <= Parts(|name|)
    && e[0] == (if ord == Parts(|name|) then ord + 0x40 else ord) && e[11] == 0x0F && e[13] == sum && e[26] == 0 && e[27] == 0
    && forall s | 0 <= s < 13 :: UnitAt(e, s) == Stored(name, (ord - 1) * 13 + s)
  }

  /** Store a unit in an entry; nothing else of the entry changes. */
  method PutUnit(dir: array<byte>, s: nat, wc: nat)
    requires dir.Length == SZDIRE && s < 13 && wc <= 0xFFFF
    modifies dir
    ensures UnitAt(dir[..], s) == wc
    ensures forall t | 0 <= t < s :: UnitAt(dir[..], t) == UnitAt(old(dir[..]), t)
    ensures dir[13] == old(dir[13]) && dir[11] == old(dir[11]) && dir[26] == old(dir[26]) && dir[27] == old(dir[27])
  {
    dir[Ofs(s)] := wc % 256;
    dir[Ofs(s) + 1] := wc / 256;
  }

  /** `put_lfn`: write part `ord` of the buffered name into a directory entry. */
  method PutLfn(lfn: seq<nat>, dir: array<byte>, ord: nat, sum: byte, ghost name: seq<nat>)
    requires dir.Length == SZDIRE && IsName(name) && Buffered(lfn, name) && 1 <= ord <= Parts(|name|)
    modifies dir
    ensures IsPart(dir[..], name, ord, sum)
  {
    dir[13] := sum;
    dir[11] := 0x0F;
    dir[12] := 0;
    dir[26] := 0;
    dir[27] := 0;
    var start := (ord - 1) * 13;
    var i: nat, s: nat, wc: nat := start, 0, 0;
    while s < 13
      invariant s <= 13 && wc <= 0xFFFF
      invariant dir[13] == sum && dir[11] == 0x0F && dir[26] == 0 && dir[27] == 0
      invariant i == (if start + s <= |name| then start + s else |name| + 1)
      invariant wc == 0xFFFF <==> start + s > |name|
      invariant forall t | 0 <= t < s :: UnitAt(dir[..], t) == Stored(name, start + t)
    {
      if wc != 0xFFFF {
        assert i < |name| ==> lfn[i] == lfn[..|name|][i];
        wc := lfn[i];
        i := i + 1;
      }
      PutUnit(dir, s, wc);
      if wc == 0 { wc := 0xFFFF; }
      s := s + 1;
    }
    LastPart(name, ord);
    ghost var was := dir[..];
    dir[0] := if wc == 0xFFFF || lfn[i] == 0 then ord + 0x40 else ord;
    forall t | 0 <= t < 13
      ensures UnitAt(dir[..], t) == UnitAt(was, t)
    {
    }
  }

  /** The part that holds the end of the name is the last one. */
  lemma LastPart(name: seq<nat>, ord: nat)
    requires |name| >= 1 && 1 <= ord <= Parts(|name|)
    ensures (ord - 1) * 13 < |name|
    ensures ord == Parts(|name|) <==> ord * 13 >= |name|
  {
  }

  // ---- picking and comparing ----

  /** Offset in the name buffer of the part with this order byte; order 0 wraps around to far outside. */
  function PartOffset(ord: nat): nat {
    if ord == 0 then 0x1_0000_0000 - 13 else (ord - 1) * 13
  }

  /** The order without the flag of the last part. */
  function OrderOf(b: byte): nat {
    if b / 0x40 % 2 == 1 then b - 0x40 else b
  }

  predicate IsLast(b: byte) {
    b / 0x40 % 2 == 1
  }

  /** The units that part `ord` brings, and the terminator if it ends the name. */
  ghost predicate Picked(buf: seq<nat>, name: seq<nat>, ord: nat)
    requires 1 <= ord
  {
    |buf| == MAX_LFN + 1 && forall i | (ord - 1) * 13 <= i < ord * 13 && i <= |name| && i < |buf| :: buf[i] == Stored(name, i)
  }

  /** `pick_lfn`: copy the part into the buffer. */
  method PickLfn(lfnbuf: array<nat>, dir: Entry, ghost name: seq<nat>, ghost ord: nat, ghost sum: byte)
    returns (ok: bool)
    requires lfnbuf.Length == MAX_LFN + 1
    modifies lfnbuf
    ensures IsName(name) && IsPart(dir, name, ord, sum) ==>
              && ok && Picked(lfnbuf[..], name, ord) && (ord == Parts(|name|) ==> lfnbuf[|name|] == 0)
              && (forall i | ord * 13 <= i <= |name| && ord < Parts(|name|) :: lfnbuf[i] == old(lfnbuf[i]))
  {
    ghost var mine := IsName(name) && IsPart(dir, name, ord, sum);
    if dir[26] != 0 || dir[27] != 0 { return false; }
    var start := PartOffset(OrderOf(dir[0]));
    if mine { LastPart(name, ord); }
    var i: nat, wc: nat, s: nat := start, 1, 0;
    while s < 13
      invariant s <= 13 && i <= start + s && (wc != 0 ==> i == start + s) && (if s == 0 then wc == 1 else i <= MAX_LFN + 1)
      invariant mine ==> start == (ord - 1) * 13
      invariant mine ==> i == (if start + s <= |name| then start + s else |name| + 1)
      invariant mine ==> (wc == 0 <==> start + s > |name|)
      invariant mine ==> forall k | start <= k < i && k < lfnbuf.Length :: lfnbuf[k] == Stored(name, k)
      invariant mine ==> forall k | 0 <= k < lfnbuf.Length && (k < start || k >= i) :: lfnbuf[k] == old(lfnbuf[k])
    {
      var uc := UnitAt(dir, s);
      if wc != 0 {
        if i >= MAX_LFN + 1 { return false; }
        lfnbuf[i] := uc;
        wc := uc;
        i := i + 1;
      } else {
        if uc != 0xFFFF { return false; }
      }
      s := s + 1;
    }
    if IsLast(dir[0]) && wc != 0 {
      if i >= MAX_LFN + 1 { return false; }
      lfnbuf[i] := 0;
    }
    ok := true;
  }

  /** What is asked of upper-casing: only the terminator becomes the terminator. */
  ghost predicate UpOk(up: nat -> nat) {
    forall u :: up(u) == 0 <==> u == 0
  }

  /** The names are the same up to case. */
  ghost predicate SameName(up: nat -> nat, want: seq<nat>, name: seq<nat>) {
    |want| == |name| && forall i | 0 <= i < |name| :: up(name[i]) == up(want[i])
  }

  /** Part `ord` of `name` agrees with `want` as far as `want` goes, and in length if the part ends the name. */
  ghost predicate PartAgrees(up: nat -> nat, want: seq<nat>, name: seq<nat>, ord: nat)
    requires ord >= 1
  {
    && (forall i | (ord - 1) * 13 <= i < ord * 13 && i <= |name| && i <= |want| :: up(Stored(name, i)) == up(Stored(want, i)))
    && (ord == Parts(|name|) && ord * 13 == |name| ==> |want| <= |name|)
  }

  /** The names are the same up to case exactly when all parts agree. */
  lemma AllPartsAgree(up: nat -> nat, want: seq<nat>, name: seq<nat>)
    requires UpOk(up) && IsName(want) && IsName(name)
    ensures SameName(up, want, name) <==> forall ord | 1 <= ord <= Parts(|name|) :: PartAgrees(up, want, name, ord)
  {
    var n := Parts(|name|);
    if forall ord | 1 <= ord <= n :: PartAgrees(up, want, name, ord) {
      forall i | 0 <= i < |name| && i <= |want|
        ensures up(name[i]) == up(Stored(want, i))
      {
        assert PartAgrees(up, want, name, i / 13 + 1);
      }
      assert PartAgrees(up, want, name, n);
      LastPart(name, n);
      assert n * 13 > |name| && |name| <= |want| ==> up(Stored(name, |name|)) == up(Stored(want, |name|));
      Unequal(up, name[if |want| < |name| then |want| else 0]);
      Unequal(up, want[if |name| < |want| then |name| else 0]);
    }
  }

  lemma Unequal(up: nat -> nat, u: nat)
    requires UpOk(up) && u != 0
    ensures up(u) != up(0)
  {
  }

  /**
   `cmp_lfn`: does the part match the buffered name? Upper-casing is any function of a unit. A part of the
   same name is accepted, and an accepted part agrees.
   */
  method CmpLfn(lfnbuf: seq<nat>, dir: Entry, up: nat -> nat, ghost want: seq<nat>, ghost name: seq<nat>,
                ghost ord: nat, ghost sum: byte)
    returns (ok: bool)
    requires |lfnbuf| == MAX_LFN + 1 && ord >= 1
    ensures IsName(want) && Buffered(lfnbuf, want) && IsName(name) && IsPart(dir, name, ord, sum) ==>
              (SameName(up, want, name) ==> ok) && (ok ==> PartAgrees(up, want, name, ord))
  {
    ghost var mine := IsName(want) && Buffered(lfnbuf, want) && IsName(name) && IsPart(dir, name, ord, sum);
    if dir[26] != 0 || dir[27] != 0 { return false; }
    var start := PartOffset(dir[0] % 0x40);
    if mine {
      LastPart(name, ord);
      BufferedUnits(lfnbuf, want);
    }
    var i: nat, wc: nat, s: nat := start, 1, 0;
    while s < 13
      invariant s <= 13 && i <= start + s && (wc != 0 ==> i == start + s) && (if s == 0 then wc == 1 else i <= MAX_LFN + 1)
      invariant mine ==> start == (ord - 1) * 13
      invariant mine ==> i == (if start + s <= |name| then start + s else |name| + 1)
      invariant mine ==> (wc == 0 <==> start + s > |name|)
      invariant mine ==> forall k | start <= k < i && k <= |want| :: up(Stored(name, k)) == up(Stored(want, k))
    {
      var uc := UnitAt(dir, s);
      if wc != 0 {
        if i >= MAX_LFN + 1 { return false; }
        if up(uc) != up(lfnbuf[i]) { return false; }
        i := i + 1;
        wc := uc;
      } else {
        if uc != 0xFFFF { return false; }
      }
      s := s + 1;
    }
    if IsLast(dir[0]) && wc != 0 && lfnbuf[i] != 0 { return false; }
    ok := true;
  }

  // ---- a file's entries in a directory ----

  /** `sum_sfn`: rotate right and add, over the bytes of a short name. */
  function SumSfn(sfn: seq<byte>): byte {
    SumOf(sfn, 0x80)
  }

  /** Short names that differ in one byte have different checksums. */
  lemma SumSfnDiffers(a: seq<byte>, b: seq<byte>, j: nat)
    requires |a| == |b| && j < |a| && a[j] != b[j] && forall i | 0 <= i < |a| && i != j :: a[i] == b[i]
    ensures SumSfn(a) != SumSfn(b)
  {
    SumOfDiffers(a, b, 0x80, j);
  }

  lemma SumSfnNext(sfn: seq<byte>, k: nat, s: nat, r: nat)
    requires k < |sfn| && SumOf(sfn[..k], 0x80) == s < 0x100
    requires var t := s / 2 + (if s % 2 == 1 then 0x80 else 0) + sfn[k]; r == if t < 0x100 then t else t - 0x100
    ensures SumOf(sfn[..k + 1], 0x80) == r
  {
    SumOfNext(sfn, 0x80, k, s);
    AddByteIs(s, 0x80, sfn[k]);
  }

  /** The checksum of "README  TXT", byte by byte. */
  lemma SumSfnKnown(sfn: seq<byte>)
    requires |sfn| == 11 && sfn[0] == 0x52 && sfn[1] == 0x45 && sfn[2] == 0x41 && sfn[3] == 0x44 && sfn[4] == 0x4D
    requires sfn[5] == 0x45 && sfn[6] == 0x20 && sfn[7] == 0x20 && sfn[8] == 0x54 && sfn[9] == 0x58 && sfn[10] == 0x54
    ensures SumSfn(sfn) == 0x73
  {
    SumSfnNext(sfn, 0, 0, 0x52);
    SumSfnNext(sfn, 1, 0x52, 0x6E);
    SumSfnNext(sfn, 2, 0x6E, 0x78);
    SumSfnNext(sfn, 3, 0x78, 0x80);
    SumSfnNext(sfn, 4, 0x80, 0x8D);
    SumSfnNext(sfn, 5, 0x8D, 0x0B);
    SumSfnNext(sfn, 6, 0x0B, 0xA5);
    SumSfnNext(sfn, 7, 0xA5, 0xF2);
    SumSfnNext(sfn, 8, 0xF2, 0xCD);
    SumSfnNext(sfn, 9, 0xCD, 0x3E);
    SumSfnNext(sfn, 10, 0x3E, 0x73);
    assert sfn[..11] == sfn;
  }

  /** An entry that is a file or a directory, not a label and not deleted. */
  predicate IsShort(e: Entry) {
    && e[0] !in {0, DELETED, DOT}
    && e[11] % 0x40 != 0x0F && e[11] % 0x40 !in {0x08, 0x28}
  }

  /** The parts of the name, the last one first, and the short entry. */
  ghost predicate IsBlock(block: seq<Entry>, name: seq<nat>, sfn: Entry) {
    var n := Parts(|name|);
    && |block| == n + 1 && block[n] == sfn
    && forall k | 0 <= k < n :: IsPart(block[k], name, n - k, SumSfn(sfn[..11]))
  }

  lemma BufferedUnits(buf: seq<nat>, name: seq<nat>)
    requires IsName(name) && Buffered(buf, name)
    ensures forall i | 0 <= i < |name| :: buf[i] == name[i] != 0
  {
    forall i | 0 <= i < |name|
      ensures buf[i] == name[i]
    {
      assert buf[..|name|][i] == name[i];
    }
  }

  /** The long-name part of `dir_register`. */
  method Register(lfnbuf: seq<nat>, sfn: Entry, ghost name: seq<nat>) returns (block: seq<Entry>)
    requires IsName(name) && Buffered(lfnbuf, name)
    ensures IsBlock(block, name, sfn)
  {
    BufferedUnits(lfnbuf, name);
    var len := 0;
    while lfnbuf[len] != 0
      invariant len <= |name|
      decreases |name| - len
    {
      len := len + 1;
    }
    block := [];
    var sum := SumSfn(sfn[..11]);
    var ord: nat := (len + 12) / 13;
    while ord > 0
      invariant ord <= Parts(|name|) && |block| == Parts(|name|) - ord
      invariant forall k | 0 <= k < |block| :: IsPart(block[k], name, Parts(|name|) - k, sum)
    {
      var dir := new byte[SZDIRE];
      PutLfn(lfnbuf, dir, ord, sum, name);
      var e: Entry := dir[..];
      block := block + [e];
      ord := ord - 1;
    }
    block := block + [sfn];
  }

  /** The name is complete from unit `from` on. */
  ghost predicate HeldFrom(buf: seq<nat>, name: seq<nat>, from: nat) {
    |buf| == MAX_LFN + 1 && forall i | from <= i <= |name| && i < |buf| :: buf[i] == Stored(name, i)
  }

  /** A part's first byte is none of the marks, and its order is what was put. */
  lemma PartByte(e: Entry, name: seq<nat>, ord: nat, sum: byte)
    requires IsName(name) && IsPart(e, name, ord, sum)
    ensures e[0] !in {0, DELETED, DOT} && e[11] % 0x40 == 0x0F
    ensures OrderOf(e[0]) == ord <= 20 && (IsLast(e[0]) <==> ord == Parts(|name|))
  {
  }

  /** `assert OpenBlock();` lets the verifier look at the entries of a name. */
  ghost predicate OpenBlock(z: int := 0) {
    true
  }

  /** The entries of `name` are in the directory from `p` on. */
  ghost predicate BlockAt(dir: seq<Entry>, p: nat, name: seq<nat>, sfn: Entry) {
    && IsName(name) && IsShort(sfn) && p + Parts(|name|) < |dir|
    && forall z {:trigger OpenBlock(z)} :: OpenBlock(z) ==> IsBlock(dir[p..p + Parts(|name|) + 1], name, sfn)
  }

  /** Entry `k` of the block. */
  lemma BlockEntry(dir: seq<Entry>, p: nat, name: seq<nat>, sfn: Entry, k: nat)
    requires BlockAt(dir, p, name, sfn) && k <= Parts(|name|)
    ensures k == Parts(|name|) ==> dir[p + k] == sfn
    ensures k < Parts(|name|) ==> IsPart(dir[p + k], name, Parts(|name|) - k, SumSfn(sfn[..11]))
  {
    assert OpenBlock();
    assert dir[p..p + Parts(|name|) + 1][k] == dir[p + k];
  }

  /** A part met by `dir_read`: it starts a name, or goes on with the one begun, or ends it in vain. */
  method TakePart(lfnbuf: array<nat>, e: Entry, ord0: nat, sum0: byte, ghost dir: seq<Entry>, ghost top0: nat,
                  ghost at: nat, ghost name: seq<nat>, ghost part: nat, ghost psum: byte)
    returns (ord: nat, sum: byte, ghost top: nat)
    requires lfnbuf.Length == MAX_LFN + 1 && at < |dir| && dir[at] == e && e[11] % 0x40 == 0x0F
    requires ord0 != 0xFF ==> LongAbove(dir, top0, at, ord0, sum0)
    modifies lfnbuf
    ensures ord != 0xFF ==> LongAbove(dir, top, at + 1, ord, sum)
    ensures IsName(name) && IsPart(e, name, part, psum)
            && (part == Parts(|name|) || (ord0 == part && sum0 == psum && HeldFrom(old(lfnbuf[..]), name, part * 13))) ==>
              ord == part - 1 && sum == psum && HeldFrom(lfnbuf[..], name, (part - 1) * 13)
  {
    ord, sum, top := ord0, sum0, top0;
    if IsName(name) && IsPart(e, name, part, psum) { PartByte(e, name, part, psum); }
    var o: nat := OrderOf(e[0]);
    if IsLast(e[0]) { sum, ord, top := e[13], o, at; }
    var ok := false;
    if o == ord && sum == e[13] { ok := PickLfn(lfnbuf, e, name, part, psum); }
    ord := if ok && ord > 0 then ord - 1 else 0xFF;
  }

  /** The first `n` entries are neither files nor the end of the directory. */
  ghost predicate NoFile(dir: seq<Entry>, n: nat) {
    n <= |dir| && (n == 0 || (NoFile(dir, n - 1) && dir[n - 1][0] != 0 && !IsShort(dir[n - 1])))
  }

  lemma {:induction false} NoFileAt(dir: seq<Entry>, n: nat, i: nat)
    requires NoFile(dir, n) && i < n
    ensures dir[i][0] != 0 && !IsShort(dir[i])
  {
    if i < n - 1 { NoFileAt(dir, n - 1, i); }
  }

  /**
   `dir_read` on a FAT directory: the first file entry, and whether it has a valid long name, then in the
   buffer. If the entries of a registered name come before any other file, their short entry is found with that
   very name, whatever labels, deleted entries and parts of other names come first.
   */
  method DirRead(dir: seq<Entry>, lfnbuf: array<nat>, ghost p: nat, ghost name: seq<nat>, ghost sfn: Entry)
    returns (found: bool, at: nat, long: bool)
    requires lfnbuf.Length == MAX_LFN + 1
    modifies lfnbuf
    ensures BlockAt(dir, p, name, sfn) && NoFile(dir, p) ==>
              found && at == p + Parts(|name|) && long && Buffered(lfnbuf[..], name)
    ensures NoFile(dir, at)
    ensures if found then at < |dir| && IsShort(dir[at]) else at < |dir| ==> dir[at][0] == 0
    ensures found && long ==> exists top :: LongAbove(dir, top, at, 0, SumSfn(dir[at][..11]))
  {
    ghost var n := Parts(|name|);
    ghost var mine := BlockAt(dir, p, name, sfn) && NoFile(dir, p);
    var ord: nat, sum: byte := 0xFF, 0xFF;
    ghost var top := 0;
    at, found, long := 0, false, false;
    while at < |dir|
      invariant !found && NoFile(dir, at)
      invariant ord != 0xFF ==> LongAbove(dir, top, at, ord, sum)
      invariant mine ==> at <= p + n
      invariant mine && at > p ==>
                  ord == p + n - at && sum == SumSfn(sfn[..11]) && HeldFrom(lfnbuf[..], name, (p + n - at) * 13)
    {
      var e := dir[at];
      ghost var part: nat := if p <= at < p + n then p + n - at else 1;
      if mine && at < p { NoFileAt(dir, p, at); }
      if mine && p <= at {
        BlockEntry(dir, p, name, sfn, at - p);
        if at < p + n { PartByte(e, name, part, SumSfn(sfn[..11])); }
      }
      var b := e[0];
      if b == 0 { return; }
      var attr := e[11] % 0x40;
      if b == DELETED || b == DOT || attr == 0x08 || attr == 0x28 {
        ord := 0xFF;
      } else if attr == 0x0F {
        ord, sum, top := TakePart(lfnbuf, e, ord, sum, dir, top, at, name, part, SumSfn(sfn[..11]));
      } else {
        found, long := true, ord == 0 && sum == SumSfn(e[..11]);
        if mine { HeldAll(lfnbuf[..], name); }
        return;
      }
      at := at + 1;
    }
  }

  lemma {:induction false} NoFileMore(dir: seq<Entry>, more: seq<Entry>, n: nat)
    requires NoFile(dir, n)
    ensures NoFile(dir + more, n)
  {
    if n > 0 { NoFileMore(dir, more, n - 1); }
  }

  /** A name registered among other entries is read back as it was. */
  method RegisterThenRead(before: seq<Entry>, after: seq<Entry>, lfn: seq<nat>, sfn: Entry, lfnbuf: array<nat>,
                          ghost name: seq<nat>)
    returns (found: bool, at: nat, long: bool)
    requires IsName(name) && Buffered(lfn, name) && IsShort(sfn) && lfnbuf.Length == MAX_LFN + 1
    requires NoFile(before, |before|)
    modifies lfnbuf
    ensures found && at == |before| + Parts(|name|) && long && Buffered(lfnbuf[..], name)
  {
    var block := Register(lfn, sfn, name);
    var dir := before + block + after;
    assert dir[|before|..|before| + |block|] == block;
    NoFileMore(before, block + after, |before|);
    assert before + (block + after) == dir;
    found, at, long := DirRead(dir, lfnbuf, |before|, name, sfn);
  }

  /**
   The entries from `top` up to `at` are parts of a long name, the first one marked as its last part, all with
   this checksum, and their orders count down to `ord + 1`.
   */
  ghost predicate LongAbove(dir: seq<Entry>, top: nat, at: nat, ord: nat, sum: byte)
    decreases at
  {
    && top < at <= |dir|
    && dir[at - 1][11] % 0x40 == 0x0F && dir[at - 1][13] == sum && OrderOf(dir[at - 1][0]) == ord + 1
    && if top == at - 1 then IsLast(dir[top][0]) else LongAbove(dir, top, at - 1, ord + 1, sum)
  }

  lemma HeldAll(buf: seq<nat>, name: seq<nat>)
    requires IsName(name) && HeldFrom(buf, name, 0)
    ensures Buffered(buf, name)
  {
    assert buf[..|name|] == name;
  }

  /** A part met by `dir_find`. */
  method MatchPart(lfnbuf: seq<nat>, e: Entry, up: nat -> nat, ord0: nat, sum0: byte, ghost dir: seq<Entry>,
                   ghost top0: nat, ghost at: nat, ghost want: seq<nat>, ghost name: seq<nat>, ghost part: nat,
                   ghost psum: byte)
    returns (ord: nat, sum: byte, ghost top: nat)
    requires |lfnbuf| == MAX_LFN + 1 && at < |dir| && dir[at] == e && e[11] % 0x40 == 0x0F && part >= 1
    requires ord0 != 0xFF ==> LongAbove(dir, top0, at, ord0, sum0)
    ensures ord != 0xFF ==> LongAbove(dir, top, at + 1, ord, sum)
    ensures IsName(want) && Buffered(lfnbuf, want) && IsName(name) && IsPart(e, name, part, psum)
            && Followed(up, want, name, part, ord0) && (part < Parts(|name|) && ord0 != 0xFF ==> sum0 == psum) ==>
              Followed(up, want, name, part - 1, ord) == true && (ord != 0xFF ==> sum == psum)
  {
    assert OpenBlock();
    ord, sum, top := ord0, sum0, top0;
    if IsName(name) && IsPart(e, name, part, psum) { PartByte(e, name, part, psum); }
    var o: nat := OrderOf(e[0]);
    if IsLast(e[0]) { sum, ord, top := e[13], o, at; }
    var ok := false;
    if o == ord && sum == e[13] { ok := CmpLfn(lfnbuf, e, up, want, name, part, psum); }
    ord := if ok && ord > 0 then ord - 1 else 0xFF;
  }

  /** The entry is below a whole chain of parts with its checksum. */
  ghost predicate LongFound(dir: seq<Entry>, at: nat) {
    at < |dir| && exists top :: LongAbove(dir, top, at, 0, SumSfn(dir[at][..11]))
  }

  lemma LongFoundBy(dir: seq<Entry>, top: nat, at: nat)
    requires at < |dir| && LongAbove(dir, top, at, 0, SumSfn(dir[at][..11]))
    ensures LongFound(dir, at) == true
  {
  }

  /** What an entry is for the search: the end, without valid data, a part of a long name, or a file. */
  datatype Sort = Last | Blank | Part | Named

  function SortOf(e: Entry): Sort {
    var a := e[11] % 0x40;
    if e[0] == 0 then Last
    else if e[0] == DELETED || (a / 8 % 2 == 1 && a != 0x0F) then Blank
    else if a == 0x0F then Part
    else Named
  }

  lemma ShortSort(dir: seq<Entry>, q: nat, fn: Short, at: nat)
    requires ShortAt(dir, q, fn) && at <= q
    ensures SortOf(dir[at]) != Last && SortOf(dir[q]) == Named
  {
    if at < q { GoesOnAt(dir, q, at); }
  }

  /** The entries of a name are parts of it and a file. */
  lemma BlockSort(dir: seq<Entry>, p: nat, name: seq<nat>, sfn: Entry, i: nat)
    requires BlockAt(dir, p, name, sfn) && i <= Parts(|name|) && sfn[11] % 0x40 / 8 % 2 == 0
    ensures p + i < |dir|
    ensures i < Parts(|name|) ==>
              SortOf(dir[p + i]) == Part && IsPart(dir[p + i], name, Parts(|name|) - i, SumSfn(sfn[..11]))
    ensures i == Parts(|name|) ==> SortOf(dir[p + i]) == Named && dir[p + i] == sfn
  {
    BlockEntry(dir, p, name, sfn, i);
    if i < Parts(|name|) { PartByte(dir[p + i], name, Parts(|name|) - i, SumSfn(sfn[..11])); }
  }

  /** What `create_name` says of the name to find: its short form, and how to search. */
  datatype Short = Short(fn: seq<byte>, lossy: bool, noLfn: bool)

  /** The short entry is that of the name. */
  predicate ShortMatch(fn: Short, e: Entry) {
    !fn.lossy && e[..11] == fn.fn
  }

  /** A file entry with this short name that the directory goes on to. */
  ghost predicate ShortAt(dir: seq<Entry>, q: nat, fn: Short) {
    && q < |dir| && GoesOn(dir, q) && ShortMatch(fn, dir[q])
    && dir[q][0] !in {0, DELETED} && dir[q][11] % 0x40 / 8 % 2 == 0
  }

  /**
   `dir_find` on a FAT directory that has the entries of a name from `p` on and a short name at `q`. It stops at the
   short entry of the name, or before, if the name looked for is the same up to case, and at the short name or before
   if that is looked for; it stops at an entry only for one of the two.
   */
  method DirFind(dir: seq<Entry>, lfnbuf: seq<nat>, up: nat -> nat, fn: Short, ghost p: nat, ghost want: seq<nat>,
                 ghost name: seq<nat>, ghost sfn: Entry, ghost q: nat)
    returns (found: bool, at: nat)
    requires |lfnbuf| == MAX_LFN + 1
    ensures Registered(dir, p, lfnbuf, want, name, sfn) && !fn.noLfn && SameName(up, want, name) ==>
              found && (at < p || at == p + Parts(|name|))
    ensures Registered(dir, p, lfnbuf, want, name, sfn) && UpOk(up) && found && p <= at <= p + Parts(|name|) ==>
              at < |dir| && ((!fn.noLfn && SameName(up, want, name)) || ShortMatch(fn, dir[at]))
    ensures ShortAt(dir, q, fn) ==> found && at <= q
    ensures found ==>
              at < |dir| && (ShortMatch(fn, dir[at]) || LongFound(dir, at))
  {
    ghost var n := Parts(|name|);
    ghost var mine := Registered(dir, p, lfnbuf, want, name, sfn) && !fn.noLfn;
    var ord: nat, sum: byte := 0xFF, 0xFF;
    ghost var top := 0;
    at, found := 0, false;
    while at < |dir|
      invariant at <= |dir| && !found && (fn.noLfn ==> ord == 0xFF) && (ShortAt(dir, q, fn) ==> at <= q)
      invariant ord != 0xFF ==> LongAbove(dir, top, at, ord, sum)
      invariant mine ==> Tracks(up, want, name, sfn, p, at, ord, sum)
      invariant mine && at > p + n ==> !SameName(up, want, name)
    {
      if ShortAt(dir, q, fn) { ShortSort(dir, q, fn, at); }
      var stop;
      stop, found, ord, sum, top := FindStep(dir, lfnbuf, up, fn, at, ord, sum, top, p, want, name, sfn);
      if stop { return; }
      at := at + 1;
    }
  }

  /** Among the entries of the name the search is in step with its parts. */
  ghost predicate Tracks(up: nat -> nat, want: seq<nat>, name: seq<nat>, sfn: Entry, p: nat, at: nat, ord: nat, sum: byte) {
    p < at <= p + Parts(|name|) ==>
      Followed(up, want, name, p + Parts(|name|) - at, ord) == true && (ord != 0xFF ==> sum == SumSfn(sfn[..11]))
  }

  /** One entry of the search. */
  method FindStep(dir: seq<Entry>, lfnbuf: seq<nat>, up: nat -> nat, fn: Short, at: nat, ord0: nat, sum0: byte,
                  ghost top0: nat, ghost p: nat, ghost want: seq<nat>, ghost name: seq<nat>, ghost sfn: Entry)
    returns (stop: bool, found: bool, ord: nat, sum: byte, ghost top: nat)
    requires |lfnbuf| == MAX_LFN + 1 && at < |dir| && (fn.noLfn ==> ord0 == 0xFF)
    requires ord0 != 0xFF ==> LongAbove(dir, top0, at, ord0, sum0)
    requires Registered(dir, p, lfnbuf, want, name, sfn) && !fn.noLfn ==> Tracks(up, want, name, sfn, p, at, ord0, sum0)
    ensures (found ==> stop) && (stop && !found ==> SortOf(dir[at]) == Last) && (fn.noLfn ==> ord == 0xFF)
    ensures SortOf(dir[at]) == Named && ShortMatch(fn, dir[at]) ==> found
    ensures found ==> ShortMatch(fn, dir[at]) || LongFound(dir, at)
    ensures !stop && ord != 0xFF ==> LongAbove(dir, top, at + 1, ord, sum)
    ensures Registered(dir, p, lfnbuf, want, name, sfn) && UpOk(up) && found && p <= at <= p + Parts(|name|) ==>
              (!fn.noLfn && SameName(up, want, name)) || ShortMatch(fn, dir[at])
    ensures Registered(dir, p, lfnbuf, want, name, sfn) && !fn.noLfn ==>
              && (at < p + Parts(|name|) ==> at < p || !stop) && (at < p ==> found || !stop)
              && (at == p + Parts(|name|) && SameName(up, want, name) ==> found)
              && (!stop ==> Tracks(up, want, name, sfn, p, at + 1, ord, sum))
  {
    var e := dir[at];
    ghost var n := Parts(|name|);
    ghost var part: nat := if p <= at < p + n then p + n - at else 1;
    if Registered(dir, p, lfnbuf, want, name, sfn) {
      if at < p { GoesOnAt(dir, p, at); }
      if p <= at <= p + n { BlockSort(dir, p, name, sfn, at - p); }
      if at == p + n && !fn.noLfn { FollowedAll(up, want, name, ord0); }
    }
    stop, found, ord, sum, top := false, false, ord0, sum0, top0;
    match SortOf(e) {
      case Last => stop := true;
      case Blank => ord := 0xFF;
      case Part =>
        if !fn.noLfn {
          ord, sum, top := MatchPart(lfnbuf, e, up, ord, sum, dir, top, at, want, name, part, SumSfn(sfn[..11]));
        }
      case Named =>
        if ord == 0 && sum == SumSfn(e[..11]) {
          LongFoundBy(dir, top, at);
          stop, found := true, true;
        } else if ShortMatch(fn, e) {
          stop, found := true, true;
        } else {
          ord := 0xFF;
        }
    }
  }

  /** The directory goes on up to the entries of `name` from `p` on, and `want` is looked for. */
  ghost predicate Registered(dir: seq<Entry>, p: nat, lfnbuf: seq<nat>, want: seq<nat>, name: seq<nat>, sfn: Entry) {
    && IsName(want) && Buffered(lfnbuf, want)
    && BlockAt(dir, p, name, sfn) && sfn[11] % 0x40 / 8 % 2 == 0
    && GoesOn(dir, p)
  }

  /** The search is in step with the parts, all of which agree so far, or it is lost and the names differ. */
  ghost predicate InStep(up: nat -> nat, want: seq<nat>, name: seq<nat>, left: nat, ord: nat) {
    || left == Parts(|name|)
    || (ord == left < 0xFF && forall o | left < o <= Parts(|name|) :: PartAgrees(up, want, name, o))
    || (ord == 0xFF && !SameName(up, want, name))
  }

  ghost predicate Followed(up: nat -> nat, want: seq<nat>, name: seq<nat>, left: nat, ord: nat) {
    forall z {:trigger OpenBlock(z)} :: OpenBlock(z) ==> InStep(up, want, name, left, ord)
  }

  /** At the short entry the search has followed all parts exactly if the names are the same. */
  lemma FollowedAll(up: nat -> nat, want: seq<nat>, name: seq<nat>, ord: nat)
    requires IsName(want) && IsName(name) && Followed(up, want, name, 0, ord)
    ensures SameName(up, want, name) ==> ord == 0
    ensures UpOk(up) && ord == 0 ==> SameName(up, want, name)
  {
    assert OpenBlock();
    if UpOk(up) { AllPartsAgree(up, want, name); }
  }

  /** The first `n` entries are not the end of the directory. */
  ghost predicate GoesOn(dir: seq<Entry>, n: nat) {
    n <= |dir| && (n == 0 || (GoesOn(dir, n - 1) && dir[n - 1][0] != 0))
  }

  lemma {:induction false} GoesOnAt(dir: seq<Entry>, n: nat, i: nat)
    requires GoesOn(dir, n) && i < n
    ensures dir[i][0] != 0
  {
    if i < n - 1 { GoesOnAt(dir, n - 1, i); }
  }
}
