/** The exFAT allocation bitmap: `find_bitmap` and `change_bitmap`. */
module ExfatBitmap {
  import Arith
  import opened FatCodec
  import opened Bits
  import opened Volumes

  ghost predicate AllAre(bits: seq<bool>, lo: nat, hi: nat, v: bool) {
    hi <= |bits| && forall j | lo <= j < hi :: bits[j] == v
  }

  /** The clear bits; bit `b` stands for cluster `b + 2`. */
  ghost function ClearSet(bits: seq<bool>): set<nat> {
    set b | 0 <= b < |bits| && !bits[b]
  }

  // ---- find_bitmap ----

  /** Every bit from `start` around to `val` is set. */
  ghost predicate Passed(bits: seq<bool>, start: nat, val: nat, wrapped: bool) {
    start < |bits| && val < |bits| &&
    if wrapped then val < start && AllAre(bits, start, |bits|, true) && AllAre(bits, 0, val, true)
    else start <= val && AllAre(bits, start, val, true)
  }

  function Next(n: nat, val: nat): nat {
    if val + 1 >= n then 0 else val + 1
  }

  lemma PassedNext(bits: seq<bool>, start: nat, val: nat, wrapped: bool)
    requires Passed(bits, start, val, wrapped) && bits[val]
    ensures Next(|bits|, val) == start ==> ClearSet(bits) == {}
    ensures Next(|bits|, val) != start ==>
              Passed(bits, start, Next(|bits|, val), wrapped || val + 1 >= |bits|)
  {
    if Next(|bits|, val) == start {
      forall j | 0 <= j < |bits|
        ensures bits[j]
      {
      }
    }
  }

  /** The scan moved on: it wrapped around, or it is further up. */
  ghost predicate Ahead(v0: nat, wrapped0: bool, val: nat, wrapped: bool) {
    (wrapped && !wrapped0) || (wrapped == wrapped0 && val > v0)
  }

  /** The innermost loop of `find_bitmap`, over the bits of byte `i` of the window from bit `k0` on. */
  method ScanByte(fs: Volume, start: nat, v0: nat, i: nat, k0: nat, ghost wrapped0: bool)
    returns (done: bool, r: nat, val: nat, ghost wrapped: bool)
    requires fs.Valid() && fs.g.fsType == ExFat
    requires fs.BitAt(v0, fs.winsect, i, k0) && Passed(fs.bits, start, v0, wrapped0)
    ensures done && r == 0 ==> ClearSet(fs.bits) == {}
    ensures done && r != 0 ==> r >= 2 && r - 2 in ClearSet(fs.bits)
    ensures !done ==> Passed(fs.bits, start, val, wrapped) && Ahead(v0, wrapped0, val, wrapped)
    ensures !done && wrapped == wrapped0 && i + 1 < fs.g.ss ==> fs.BitAt(val, fs.winsect, i + 1, 0)
  {
    ghost var bits := fs.bits;
    var k := k0;
    val, wrapped, done, r := v0, wrapped0, false, 0;
    while k < 8
      invariant k0 <= k <= 8
      invariant wrapped != wrapped0 ==> k == 8
      invariant wrapped == wrapped0 ==> val == v0 + (k - k0)
      invariant Passed(bits, start, val, wrapped)
      invariant wrapped == wrapped0 || Ahead(v0, wrapped0, val, wrapped)
    {
      fs.PeekBit(val, i, k);
      var bv := TestBit(fs.win[i], k);
      var scl := val;
      if bv { PassedNext(bits, start, val, wrapped); }
      k := k + 1;
      val := val + 1;
      if val >= fs.g.nFatent - 2 {
        val, k := 0, 8;
        wrapped := true;
      }
      if !bv { return true, scl + 2, val, wrapped; }
      if val == start { return true, 0, val, wrapped; }
    }
  }

  /** The middle loop of `find_bitmap`, over the bytes of the window. */
  method ScanSector(fs: Volume, start: nat, v0: nat, i0: nat, k0: nat, ghost wrapped0: bool)
    returns (done: bool, r: nat, val: nat, ghost wrapped: bool)
    requires fs.Valid() && fs.g.fsType == ExFat
    requires fs.BitAt(v0, fs.winsect, i0, k0) && Passed(fs.bits, start, v0, wrapped0)
    ensures done && r == 0 ==> ClearSet(fs.bits) == {}
    ensures done && r != 0 ==> r >= 2 && r - 2 in ClearSet(fs.bits)
    ensures !done ==> Passed(fs.bits, start, val, wrapped) && Ahead(v0, wrapped0, val, wrapped)
  {
    var i, k := i0, k0;
    val, wrapped, done, r := v0, wrapped0, false, 0;
    while i < fs.g.ss
      invariant i < fs.g.ss ==> fs.BitAt(val, fs.winsect, i, k)
      invariant i < fs.g.ss ==> wrapped == wrapped0 && val >= v0
      invariant i >= fs.g.ss ==> Ahead(v0, wrapped0, val, wrapped)
      invariant Passed(fs.bits, start, val, wrapped)
    {
      var before := val;
      done, r, val, wrapped := ScanByte(fs, start, val, i, k, wrapped);
      if done { return; }
      k := 0;
      i := if val <= before then fs.g.ss else i + 1;
    }
  }

  /** Find a free cluster, from cluster `clst` around: 0 when there is none, DISK_ERROR on a disk error. */
  method FindBitmap(fs: Volume, clst: nat) returns (r: nat)
    requires fs.Valid() && fs.g.fsType == ExFat
    modifies fs`disk, fs`fat2, fs`wflag, fs`winsect, fs`stale, fs.win
    ensures fs.Valid() && (fs.winsect == old(fs.winsect) || IsMeta(fs.g, fs.winsect))
    ensures r == 0 ==> ClearSet(fs.bits) == {}
    ensures r != 0 && r != DISK_ERROR ==> r >= 2 && r - 2 in ClearSet(fs.bits)
  {
    var start: nat := if clst < 2 || clst - 2 >= fs.g.nFatent - 2 then 0 else clst - 2;
    var val := start;
    ghost var wrapped := false;
    while true
      invariant fs.Valid()
      invariant fs.winsect == old(fs.winsect) || IsMeta(fs.g, fs.winsect)
      invariant Passed(fs.bits, start, val, wrapped)
      decreases !wrapped, fs.g.nFatent - val
    {
      var s, i, k := fs.LocateBit(val);
      var res := fs.MoveWindow(s);
      if res != Fine { return DISK_ERROR; }
      var done;
      done, r, val, wrapped := ScanSector(fs, start, val, i, k, wrapped);
      if done { return; }
    }
  }

  // ---- change_bitmap ----

  /** The bits after `n` of them from `lo` on were set to `v`. */
  function SetRange(bits: seq<bool>, lo: nat, n: nat, v: bool): (r: seq<bool>)
    requires lo + n <= |bits|
    ensures |r| == |bits|
  {
    if n == 0 then bits else SetRange(bits, lo, n - 1, v)[lo + n - 1 := v]
  }

  lemma {:induction false} SetRangeAt(bits: seq<bool>, lo: nat, n: nat, v: bool, j: nat)
    requires lo + n <= |bits| && j < |bits|
    ensures SetRange(bits, lo, n, v)[j] == if lo <= j < lo + n then v else bits[j]
  {
    if n > 0 {
      SetRangeAt(bits, lo, n - 1, v, j);
    }
  }

  /** What a run of flips did so far: `m` bits from `lo` on had the other value and were flipped. */
  ghost predicate Changed(was: seq<bool>, now: seq<bool>, lo: nat, m: nat, v: bool) {
    lo + m <= |was| && AllAre(was, lo, lo + m, !v) && now == SetRange(was, lo, m, v)
  }

  lemma ChangedNext(was: seq<bool>, now: seq<bool>, lo: nat, m: nat, v: bool)
    requires Changed(was, now, lo, m, v) && lo + m < |was|
    ensures lo + m < |now| && now[lo + m] == was[lo + m]
    ensures was[lo + m] != v ==> Changed(was, now[lo + m := v], lo, m + 1, v)
  {
    SetRangeAt(was, lo, m, v, lo + m);
  }

  /** Check and flip one bit. */
  method ChangeBit(fs: Volume, i: nat, k: nat, bv: bool, ghost was: seq<bool>, ghost lo: nat, ghost m: nat)
    returns (res: Status)
    requires fs.Valid() && fs.g.fsType == ExFat
    requires lo + m < fs.g.nFatent - 2 == |was|
    requires fs.BitAt(lo + m, fs.winsect, i, k) && Changed(was, fs.bits, lo, m, bv)
    modifies fs`wflag, fs.win, fs`view, fs`bits
    ensures fs.Valid() && BitmapOnly(fs.g, old(fs.view), fs.view)
    ensures res in {Fine, IntErr}
    ensures res == Fine ==> Changed(was, fs.bits, lo, m + 1, bv)
    ensures res == IntErr ==> was[lo + m] == bv
  {
    ChangedNext(was, fs.bits, lo, m, bv);
    fs.PeekBit(lo + m, i, k);
    if TestBit(fs.win[i], k) == bv { return IntErr; }
    fs.PokeBit(lo + m, i, k, bv);
    res := Fine;
  }

  /** The bit loop of `change_bitmap`: flip bits of byte `i` of the window from bit `k0` on, `left` at most. */
  method ChangeByte(fs: Volume, i: nat, k0: nat, left: nat, bv: bool, ghost was: seq<bool>, ghost lo: nat, ghost m: nat)
    returns (res: Status, left': nat)
    requires fs.Valid() && fs.g.fsType == ExFat
    requires left > 0 && lo + m + left <= fs.g.nFatent - 2 == |was|
    requires fs.BitAt(lo + m, fs.winsect, i, k0) && Changed(was, fs.bits, lo, m, bv)
    modifies fs`wflag, fs.win, fs`view, fs`bits
    ensures fs.Valid() && BitmapOnly(fs.g, old(fs.view), fs.view)
    ensures res in {Fine, IntErr} && left' <= left
    ensures res == Fine ==> Changed(was, fs.bits, lo, m + (left - left'), bv)
    ensures res == Fine && left' > 0 ==> left' == left - (8 - k0)
    ensures res == IntErr ==> exists j | lo <= j < lo + m + left :: was[j] == bv
  {
    var k := k0;
    left' := left;
    while k < 8
      invariant k0 <= k <= 8 && 0 < left' && left - left' == k - k0
      invariant fs.Valid() && BitmapOnly(fs.g, old(fs.view), fs.view)
      invariant Changed(was, fs.bits, lo, m + (left - left'), bv)
    {
      res := ChangeBit(fs, i, k, bv, was, lo, m + (left - left'));
      if res != Fine { return; }
      left' := left' - 1;
      if left' == 0 { return; }
      k := k + 1;
    }
    res := Fine;
  }

  /** The byte loop of `change_bitmap`, over the bytes of the window from byte `i0` on. */
  method ChangeSector(fs: Volume, i0: nat, k0: nat, left: nat, bv: bool, ghost was: seq<bool>, ghost lo: nat,
                      ghost m: nat)
    returns (res: Status, left': nat)
    requires fs.Valid() && fs.g.fsType == ExFat
    requires left > 0 && lo + m + left <= fs.g.nFatent - 2 == |was|
    requires fs.BitAt(lo + m, fs.winsect, i0, k0) && Changed(was, fs.bits, lo, m, bv)
    modifies fs`wflag, fs.win, fs`view, fs`bits
    ensures fs.Valid() && BitmapOnly(fs.g, old(fs.view), fs.view)
    ensures res in {Fine, IntErr} && left' <= left
    ensures res == Fine ==> Changed(was, fs.bits, lo, m + (left - left'), bv)
    ensures res == Fine && left' > 0 ==> left' == left - (8 * (fs.g.ss - i0) - k0)
    ensures res == IntErr ==> exists j | lo <= j < lo + m + left :: was[j] == bv
  {
    var i, k := i0, k0;
    left' := left;
    while i < fs.g.ss
      invariant i0 <= i <= fs.g.ss && k <= 8 && (i > i0 ==> k == 0) && (i == i0 ==> k == k0)
      invariant 0 < left' <= left && left - left' == 8 * (i - i0) + k - k0
      invariant fs.Valid() && BitmapOnly(fs.g, old(fs.view), fs.view)
      invariant Changed(was, fs.bits, lo, m + (left - left'), bv)
    {
      res, left' := ChangeByte(fs, i, k, left', bv, was, lo, m + (left - left'));
      if res != Fine || left' == 0 { return; }
      k := 0;
      i := i + 1;
    }
    res := Fine;
  }

  /**
   Set or clear the bits of `ncl` clusters from `clst` on. Succeeds only if every one of them had
   the other value, and then changes exactly those.
   */
  method ChangeBitmap(fs: Volume, clst: nat, ncl: nat, bv: bool) returns (res: Status)
    requires fs.Valid() && fs.g.fsType == ExFat
    requires clst >= 2 && ncl > 0 && clst + ncl <= fs.g.nFatent
    modifies fs`disk, fs`fat2, fs`wflag, fs`winsect, fs`stale, fs.win, fs`view, fs`bits
    ensures fs.Valid() && BitmapOnly(fs.g, old(fs.view), fs.view)
    ensures fs.winsect == old(fs.winsect) || IsMeta(fs.g, fs.winsect)
    ensures res in {Fine, DiskErr, IntErr}
    ensures res == Fine ==>
              && Changed(old(fs.bits), fs.bits, clst - 2, ncl, bv)
              && InBitmap(fs.g, fs.winsect)
    ensures res == IntErr ==> exists j | clst - 2 <= j < clst - 2 + ncl :: old(fs.bits)[j] == bv
  {
    ghost var was := fs.bits;
    ghost var lo: nat := clst - 2;
    var sect, i, k := fs.LocateBit(clst - 2);
    var left := ncl;
    while true
      invariant fs.Valid() && BitmapOnly(fs.g, old(fs.view), fs.view)
      invariant fs.winsect == old(fs.winsect) || IsMeta(fs.g, fs.winsect)
      invariant 0 < left <= ncl && Changed(was, fs.bits, lo, ncl - left, bv)
      invariant fs.BitAt(lo + (ncl - left), sect, i, k) && !InMirror(fs.g, sect) && sect < NO_SECTOR
      decreases left
    {
      res := fs.MoveWindow(sect);
      if res != Fine { return DiskErr; }
      ghost var before := left;
      res, left := ChangeSector(fs, i, k, left, bv, was, lo, ncl - left);
      if res != Fine || left == 0 { return; }
      NextBitSector(fs, lo + (ncl - before), lo + (ncl - left), sect, i, k);
      sect, i, k := sect + 1, 0, 0;
    }
  }

  /** The bit after the last one of a sector is the first one of the next. */
  lemma NextBitSector(fs: Volume, c: nat, c': nat, sect: nat, i: nat, k: nat)
    requires fs.Valid() && fs.g.fsType == ExFat && fs.BitAt(c, sect, i, k)
    requires c' == c + 8 * (fs.g.ss - i) - k && c' < fs.g.nFatent - 2
    ensures fs.BitAt(c', sect + 1, 0, 0) && !InMirror(fs.g, sect + 1) && sect + 1 < NO_SECTOR
  {
    assert Open();
    var n := sect - fs.g.bitBase;
    assert Arith.Times(fs.g.ss, n + 1) == fs.g.ss + Arith.Times(fs.g.ss, n);
    Arith.TimesMono(fs.g.ss, n + 1, fs.g.bitSize);
  }
}
