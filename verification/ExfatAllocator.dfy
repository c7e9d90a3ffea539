/** `get_fat`, the fragment fillers, `create_chain` and `remove_chain` on exFAT volumes. */
module ExfatAllocator {
  import opened Arith
  import opened FatCodec
  import opened Volumes
  import opened Chains
  import opened ExfatBitmap
  import opened ExfatLazy

  /** `FFOBJID`: the chain fields of an open file or directory. */
  class ObjectId {
    const fs: Volume
    var sclust: nat
    var objsize: nat
    var stat: nat
    var nCont: nat
    var nFrag: nat

    constructor (fs: Volume, sclust: nat, objsize: nat, stat: nat)
      ensures this.fs == fs && this.sclust == sclust && this.objsize == objsize && this.stat == stat
      ensures nCont == 0 && nFrag == 0
    {
      this.fs, this.sclust, this.objsize, this.stat, nCont, nFrag := fs, sclust, objsize, stat, 0, 0;
    }

    ghost function Fields(): Lazy
      reads this`sclust, this`stat, this`nCont, this`nFrag, fs`tab
    {
      Lazy(fs.tab, sclust, stat, nCont, nFrag)
    }
  }

  /** Index of the last cluster of an object of `size > 0` bytes, with the 32-bit cut of the sector count. */
  function LastIndex(g: Geometry, size: nat): nat
    requires g.ss > 0 && g.csize > 0 && size > 0
  {
    Quot(Quot(size - 1, g.ss) % 0x1_0000_0000, g.csize)
  }

  /** Offset of `clst` from `sclust` in 32-bit arithmetic. */
  function Offset32(clst: nat, sclust: nat): int {
    if clst >= sclust then clst - sclust else clst + 0x1_0000_0000 - sclust
  }

  /** The value `get_fat` gives for cluster `clst` of an exFAT object: `last` is the index of its last cluster. */
  function NextOf(s: Lazy, hasSize: bool, last: nat, clst: nat): nat
    requires clst < |s.tab|
  {
    var cofs := Offset32(clst, s.sclust);
    if !((hasSize && s.sclust != 0) || s.stat == 0) then 1
    else if s.stat == 2 && cofs <= last then (if cofs == last then EOC else clst + 1)
    else if s.stat == 3 && cofs < s.nCont then clst + 1
    else if s.stat != 2 then (if s.nFrag != 0 then EOC else s.tab[clst])
    else 1
  }

  /** The size of the object covers exactly the clusters of its chain. */
  ghost predicate Covers(s: Lazy, hasSize: bool, last: nat, ch: seq<nat>) {
    s.stat != 0 ==> hasSize && last == |ch| - 1
  }

  /** On a represented chain, `get_fat` follows the chain. */
  lemma NextOnChain(s: Lazy, hasSize: bool, last: nat, ch: seq<nat>, k: nat)
    requires Represents(s, ch) && Covers(s, hasSize, last, ch) && |s.tab| <= EOC
    requires k < |ch| && (s.nFrag == 0 || k == |ch| - 1)
    ensures if k + 1 < |ch| then NextOf(s, hasSize, last, ch[k]) == ch[k + 1] else NextOf(s, hasSize, last, ch[k]) >= |s.tab|
  {
    if s.stat == 2 {
      ConsecutiveAt(ch, 0, |ch|, 0, k);
    } else if s.stat == 3 {
      ConsecutiveAt(ch, 0, s.nCont + 1, 0, s.nCont);
      if k < s.nCont {
        ConsecutiveAt(ch, 0, s.nCont + 1, 0, k);
      } else {
        BeyondFirst(s, ch, k);
      }
    }
  }

  /** When the end of a chain reads as the number after its last cluster: only in the very last cluster of a volume. */
  lemma EndIsNext(s: Lazy, hasSize: bool, last: nat, ch: seq<nat>)
    requires Represents(s, ch) && Covers(s, hasSize, last, ch) && |s.tab| <= EOC && s.nFrag == 0
    ensures var c := ch[|ch| - 1];
            NextOf(s, hasSize, last, c) == c + 1 <==>
              c + 1 == |s.tab| && if s.stat == 2 then |s.tab| == EOC else s.tab[c] == |s.tab|
  {
    NextOnChain(s, hasSize, last, ch, |ch| - 1);
    if s.stat == 2 { ConsecutiveAt(ch, 0, |ch|, 0, |ch| - 1); }
    if s.stat == 3 { BeyondFirst(s, ch, |ch| - 1); }
  }

  /** Such a chain: the last cluster of the volume alone, ended by the number of entries. */
  lemma EndIsNextChain(t: seq<nat>)
    requires 3 <= |t| <= EOC && t[|t| - 1] == |t|
    ensures var s := Lazy(t, |t| - 1, 0, 0, 0);
            Represents(s, [|t| - 1]) && NextOf(s, true, 0, |t| - 1) == |t|
  {
  }

  lemma BeyondFirst(s: Lazy, ch: seq<nat>, k: nat)
    requires Represents(s, ch) && s.stat == 3 && s.nCont <= k < |ch| && |s.tab| <= EOC
    ensures Offset32(ch[k], s.sclust) >= s.nCont
  {
    ConsecutiveAt(ch, 0, s.nCont + 1, 0, s.nCont);
    if s.sclust <= ch[k] < s.sclust + s.nCont {
      ConsecutiveAt(ch, 0, s.nCont + 1, 0, ch[k] - s.sclust);
    }
  }

  method GetFat(obj: ObjectId, clst: nat) returns (val: nat)
    requires obj.fs.Valid() && obj.fs.g.fsType == ExFat
    modifies obj.fs`disk, obj.fs`fat2, obj.fs`wflag, obj.fs`winsect, obj.fs`stale, obj.fs.win
    ensures obj.fs.Valid() && (obj.fs.winsect == old(obj.fs.winsect) || IsMeta(obj.fs.g, obj.fs.winsect))
    ensures obj.fs.g.ss > 0 && obj.fs.g.csize > 0
    ensures !(2 <= clst < obj.fs.g.nFatent) ==> val == 1
    ensures 2 <= clst < obj.fs.g.nFatent && val != DISK_ERROR ==>
              val == NextOf(obj.Fields(), obj.objsize > 0,
                            if obj.objsize > 0 then LastIndex(obj.fs.g, obj.objsize) else 0, clst)
  {
    var fs := obj.fs;
    assert fs.g.ss > 0 && fs.g.csize > 0 by { assert OpenTables(); }
    if clst < 2 || clst >= fs.g.nFatent { return 1; }
    if (obj.objsize != 0 && obj.sclust != 0) || obj.stat == 0 {
      var cofs := Offset32(clst, obj.sclust);
      var clen := if obj.objsize > 0 then LastIndex(fs.g, obj.objsize) else 0;
      if obj.stat == 2 && cofs <= clen {
        return if cofs == clen then EOC else clst + 1;
      }
      if obj.stat == 3 && cofs < obj.nCont { return clst + 1; }
      if obj.stat != 2 {
        if obj.nFrag != 0 { return EOC; }
        val := fs.ReadEntry(clst);
        return;
      }
    }
    val := 1;
  }

  lemma LinkFits(c: nat)
    ensures c < 0x8000_0000 ==> Cut(ExFat, c) == c
    ensures Cut(ExFat, END_OF_CHAIN) == EOC
  {
  }

  /** Fill the first fragment of the chain on the FAT. */
  method FillFirstFrag(obj: ObjectId) returns (res: Status)
    requires obj.fs.Valid() && obj.fs.g.fsType == ExFat
    requires obj.stat == 3 ==> 2 <= obj.sclust && obj.sclust + obj.nCont <= obj.fs.g.nFatent
    modifies obj`stat, obj.fs`disk, obj.fs`fat2, obj.fs`wflag, obj.fs`winsect
    modifies obj.fs`stale, obj.fs`view, obj.fs`tab, obj.fs.win
    ensures obj.fs.Valid() && FatOnly(obj.fs.g, old(obj.fs.view), obj.fs.view)
    ensures obj.fs.winsect == old(obj.fs.winsect) || IsMeta(obj.fs.g, obj.fs.winsect)
    ensures res in {Fine, DiskErr}
    ensures res == Fine ==> obj.Fields() == FillFirst(old(obj.Fields()))
  {
    var fs := obj.fs;
    if obj.stat == 3 {
      var cl: nat, n: nat := obj.sclust, obj.nCont;
      while n > 0
        invariant n <= obj.nCont && cl == obj.sclust + (obj.nCont - n) && 2 <= cl
        invariant fs.Valid() && FatOnly(fs.g, old(fs.view), fs.view)
        invariant fs.winsect == old(fs.winsect) || IsMeta(fs.g, fs.winsect)
        invariant LinkRun(fs.tab, cl, n) == LinkRun(old(fs.tab), obj.sclust, obj.nCont)
      {
        LinkFits(cl + 1);
        res := fs.PutFat(cl, cl + 1);
        if res != Fine { return; }
        cl, n := cl + 1, n - 1;
      }
      obj.stat := 0;
    }
    res := Fine;
  }

  /** Link a cluster to the next one, or to `term` when it is the last of its fragment. */
  method LinkOne(fs: Volume, cl: nat, more: bool, term: nat) returns (res: Status)
    requires fs.Valid() && fs.g.fsType == ExFat && 2 <= cl < fs.g.nFatent
    requires term == END_OF_CHAIN || term < 0x8000_0000
    modifies fs`disk, fs`fat2, fs`wflag, fs`winsect, fs`stale, fs`view, fs`tab, fs.win
    ensures fs.Valid() && FatOnly(fs.g, old(fs.view), fs.view)
    ensures fs.winsect == old(fs.winsect) || IsMeta(fs.g, fs.winsect)
    ensures res in {Fine, DiskErr}
    ensures res == Fine ==>
              InFat(fs.g, fs.winsect) && fs.tab == old(fs.tab)[cl := if more then cl + 1 else Cut(ExFat, term)]
  {
    LinkFits(cl + 1);
    res := fs.PutFat(cl, if more then cl + 1 else term);
  }

  /** Fill the last fragment of the chain on the FAT, up to `lcl`, and end it with `term`. */
  method FillLastFrag(obj: ObjectId, lcl: nat, term: nat) returns (res: Status)
    requires obj.fs.Valid() && obj.fs.g.fsType == ExFat
    requires obj.nFrag == 0 || obj.nFrag < lcl < obj.fs.g.nFatent
    requires term == END_OF_CHAIN || term < 0x8000_0000
    modifies obj`nFrag, obj.fs`disk, obj.fs`fat2, obj.fs`wflag, obj.fs`winsect
    modifies obj.fs`stale, obj.fs`view, obj.fs`tab, obj.fs.win
    ensures obj.fs.Valid() && FatOnly(obj.fs.g, old(obj.fs.view), obj.fs.view)
    ensures obj.fs.winsect == old(obj.fs.winsect) || IsMeta(obj.fs.g, obj.fs.winsect)
    ensures res in {Fine, DiskErr}
    ensures res == Fine ==> obj.Fields() == FillLast(old(obj.Fields()), lcl, Cut(ExFat, term))
    ensures res == Fine && old(obj.nFrag) > 0 ==> InFat(obj.fs.g, obj.fs.winsect)
    ensures res == Fine && old(obj.nFrag) == 0 ==> obj.fs.view == old(obj.fs.view)
  {
    var fs := obj.fs;
    while obj.nFrag > 0
      invariant obj.nFrag <= old(obj.nFrag)
      invariant fs.Valid() && FatOnly(fs.g, old(fs.view), fs.view)
      invariant fs.winsect == old(fs.winsect) || IsMeta(fs.g, fs.winsect)
      invariant if obj.nFrag < old(obj.nFrag) then InFat(fs.g, fs.winsect) else fs.view == old(fs.view)
      invariant LinkTail(fs.tab, lcl, obj.nFrag, Cut(ExFat, term)) ==
                LinkTail(old(fs.tab), lcl, old(obj.nFrag), Cut(ExFat, term))
    {
      res := LinkOne(fs, lcl - obj.nFrag + 1, obj.nFrag > 1, term);
      if res != Fine { return; }
      obj.nFrag := obj.nFrag - 1;
    }
    res := Fine;
  }

  // ---- create_chain ----

  /** The free-cluster counter is right, or says that it does not know. */
  ghost predicate FreeCountKnown(fs: Volume)
    reads fs`freeClst, fs`bits
  {
    CountKnown(fs.g, fs.freeClst, |ClearSet(fs.bits)|)
  }

  /** The bits of all clusters of a chain are set. */
  ghost predicate InUse(bits: seq<bool>, ch: seq<nat>) {
    forall i | 0 <= i < |ch| :: 2 <= ch[i] < |bits| + 2 && bits[ch[i] - 2]
  }

  lemma ClearSetPut(bits: seq<bool>, b: nat)
    requires b in ClearSet(bits)
    ensures ClearSet(bits[b := true]) == ClearSet(bits) - {b}
    ensures |ClearSet(bits)| == |ClearSet(bits[b := true])| + 1
  {
  }

  /** Find a free cluster and mark it in use. */
  method TakeCluster(fs: Volume, scl: nat) returns (ncl: nat)
    requires fs.Valid() && fs.g.fsType == ExFat
    modifies fs`disk, fs`fat2, fs`wflag, fs`winsect, fs`stale, fs`view, fs`bits, fs.win
    ensures fs.Valid() && BitmapOnly(fs.g, old(fs.view), fs.view)
    ensures fs.winsect == old(fs.winsect) || IsMeta(fs.g, fs.winsect)
    ensures ncl == 0 ==> ClearSet(fs.bits) == {} && fs.bits == old(fs.bits) && fs.view == old(fs.view)
    ensures ncl != 0 && ncl != DISK_ERROR ==>
              && ncl >= 2 && ncl - 2 in ClearSet(old(fs.bits)) && fs.bits == old(fs.bits)[ncl - 2 := true]
              && IsMeta(fs.g, fs.winsect)
  {
    ncl := FindBitmap(fs, scl);
    if ncl == 0 || ncl == DISK_ERROR { return; }
    assert SetRange(fs.bits, ncl - 2, 0, true) == fs.bits;
    var res := ChangeBitmap(fs, ncl, 1, true);
    if res != Fine { ncl := ErrorCode(res); }
  }

  /** Record the new tail `ncl` in the chain fields, writing the last fragment if it ended. */
  method GrowFields(obj: ObjectId, clst: nat, ncl: nat) returns (res: Status)
    requires obj.fs.Valid() && obj.fs.g.fsType == ExFat
    requires clst == 0 || (2 <= clst < obj.fs.g.nFatent && obj.nFrag < clst && (obj.stat == 2 ==> obj.sclust <= clst))
    requires 2 <= ncl < obj.fs.g.nFatent
    modifies obj`stat, obj`nCont, obj`nFrag
    modifies obj.fs`disk, obj.fs`fat2, obj.fs`wflag, obj.fs`winsect, obj.fs`stale, obj.fs`view, obj.fs`tab, obj.fs.win
    ensures obj.fs.Valid() && FatOnly(obj.fs.g, old(obj.fs.view), obj.fs.view)
    ensures obj.fs.winsect == old(obj.fs.winsect) || IsMeta(obj.fs.g, obj.fs.winsect)
    ensures res in {Fine, DiskErr}
    ensures res == Fine ==> obj.Fields() == Grow(old(obj.Fields()), clst, ncl).(sclust := obj.sclust)
  {
    res := Fine;
    if clst == 0 {
      obj.stat := 2;
    } else {
      if obj.stat == 2 && ncl != clst + 1 {
        obj.nCont := clst - obj.sclust;
        obj.stat := 3;
      }
    }
    if obj.stat != 2 {
      if ncl == clst + 1 {
        obj.nFrag := if obj.nFrag != 0 then obj.nFrag + 1 else 2;
      } else {
        if obj.nFrag == 0 { obj.nFrag := 1; }
        LinkFits(ncl);
        res := FillLastFrag(obj, clst, ncl);
        if res == Fine { obj.nFrag := 1; }
      }
    }
  }

  /** Where the chain stands when `create_chain` is called: no chain, or at index `k` of chain `ch`. */
  ghost predicate Ready(obj: ObjectId, ch: seq<nat>, clst: nat, k: nat)
    reads obj, obj.fs
    requires obj.fs.g.ss > 0 && obj.fs.g.csize > 0
  {
    && InUse(obj.fs.bits, ch)
    && if clst == 0 then ch == [] && obj.nFrag == 0
       else
         && k < |ch| && ch[k] == clst && Represents(obj.Fields(), ch)
         && (obj.nFrag == 0 || k == |ch| - 1)
         && Covers(obj.Fields(), obj.objsize > 0, if obj.objsize > 0 then LastIndex(obj.fs.g, obj.objsize) else 0, ch)
  }

  /**
   Stretch the chain `ch` of `obj` at `clst`, or create one when `clst` is 0 (the caller then sets
   the start cluster). Returns the new cluster, the next one if the chain goes on, 0 when the disk
   is full and DISK_ERROR on a disk error.
   */
  method CreateChain(obj: ObjectId, clst: nat, ghost ch: seq<nat>, ghost k: nat) returns (ncl: nat)
    requires obj.fs.Valid() && obj.fs.g.fsType == ExFat && obj.fs.g.ss > 0 && obj.fs.g.csize > 0
    requires FreeCountKnown(obj.fs) && Ready(obj, ch, clst, k)
    modifies obj`stat, obj`nCont, obj`nFrag
    modifies obj.fs`disk, obj.fs`fat2, obj.fs`wflag, obj.fs`winsect, obj.fs`stale
    modifies obj.fs`view, obj.fs`tab, obj.fs`bits, obj.fs.win
    modifies obj.fs`freeClst, obj.fs`lastClst, obj.fs`fsiDirty
    ensures obj.fs.Valid() && SameData(obj.fs.g, old(obj.fs.view), obj.fs.view) && ncl != 1
    ensures obj.fs.winsect == old(obj.fs.winsect) || IsMeta(obj.fs.g, obj.fs.winsect)
    ensures ncl == 0 ==>
              && (clst == 0 || k == |ch| - 1)
              && ClearSet(obj.fs.bits) == {} && obj.fs.bits == old(obj.fs.bits) && obj.Fields() == old(obj.Fields())
              && FreeCountKnown(obj.fs)
    ensures ncl != 0 && ncl != DISK_ERROR && clst != 0 && k + 1 < |ch| ==>
              && ncl == ch[k + 1] && obj.fs.bits == old(obj.fs.bits) && obj.Fields() == old(obj.Fields())
              && FreeCountKnown(obj.fs)
    ensures ncl != 0 && ncl != DISK_ERROR && (clst == 0 || k + 1 == |ch|) ==>
              && ncl - 2 in ClearSet(old(obj.fs.bits)) && obj.fs.bits == old(obj.fs.bits)[ncl - 2 := true]
              && Represents(obj.Fields().(sclust := if clst == 0 then ncl else obj.sclust), ch + [ncl])
              && InUse(obj.fs.bits, ch + [ncl]) && FreeCountKnown(obj.fs) && IsMeta(obj.fs.g, obj.fs.winsect)
              && KeepsOthers(old(obj.fs.tab), obj.fs.tab, ch) == true && obj.fs.lastClst == ncl && obj.fs.fsiDirty
    ensures Counts(obj.fs.g, obj.fs.freeClst) <==> old(Counts(obj.fs.g, obj.fs.freeClst))
  {
    var fs := obj.fs;
    var scl := clst;
    if clst == 0 {
      scl := fs.lastClst;
      if scl == 0 || scl >= fs.g.nFatent { scl := 1; }
    } else {
      ghost var last := if obj.objsize > 0 then LastIndex(fs.g, obj.objsize) else 0;
      NextOnChain(obj.Fields(), obj.objsize > 0, last, ch, k);
      var cs := GetFat(obj, clst);
      if cs < 2 { return 1; }
      if cs == DISK_ERROR { return cs; }
      if cs < fs.g.nFatent { return cs; }
    }
    if fs.freeClst == 0 { return 0; }
    ncl := AllocAt(obj, clst, scl, ch);
  }

  lemma InUseAppend(bits: seq<bool>, ch: seq<nat>, r: nat)
    requires InUse(bits, ch) && r >= 2 && r - 2 in ClearSet(bits)
    ensures r !in ch && InUse(bits[r - 2 := true], ch + [r])
  {
  }

  /** Record a taken cluster as the new tail of chain `ch`. */
  method Extend(obj: ObjectId, clst: nat, ncl: nat, ghost ch: seq<nat>) returns (res: Status)
    requires obj.fs.Valid() && obj.fs.g.fsType == ExFat && 2 <= ncl < obj.fs.g.nFatent && ncl !in ch
    requires if clst == 0 then ch == [] && obj.nFrag == 0
             else Represents(obj.Fields(), ch) && clst == ch[|ch| - 1]
    modifies obj`stat, obj`nCont, obj`nFrag
    modifies obj.fs`disk, obj.fs`fat2, obj.fs`wflag, obj.fs`winsect, obj.fs`stale, obj.fs`view, obj.fs`tab, obj.fs.win
    ensures obj.fs.Valid() && SameData(obj.fs.g, old(obj.fs.view), obj.fs.view) && res in {Fine, DiskErr}
    ensures obj.fs.winsect == old(obj.fs.winsect) || IsMeta(obj.fs.g, obj.fs.winsect)
    ensures res == Fine ==> Represents(obj.Fields().(sclust := if clst == 0 then ncl else obj.sclust), ch + [ncl])
    ensures res == Fine ==> KeepsOthers(old(obj.fs.tab), obj.fs.tab, ch) == true
  {
    ghost var v := obj.fs.view;
    ghost var s := obj.Fields();
    if clst == 0 {
      GrowFirst(s, ncl);
    } else {
      GrowStrict(s, ch);
      GrowRepresents(s, ch, ncl);
      GrowKeeps(s, ch, ncl);
    }
    res := GrowFields(obj, clst, ncl);
    FatOnlySame(obj.fs.g, v, obj.fs.view);
  }

  /** The allocation proper: take a free cluster and record it. */
  method AllocAt(obj: ObjectId, clst: nat, scl: nat, ghost ch: seq<nat>) returns (ncl: nat)
    requires obj.fs.Valid() && obj.fs.g.fsType == ExFat && FreeCountKnown(obj.fs) && obj.fs.freeClst > 0
    requires InUse(obj.fs.bits, ch)
    requires if clst == 0 then ch == [] && obj.nFrag == 0
             else Represents(obj.Fields(), ch) && clst == ch[|ch| - 1]
    modifies obj`stat, obj`nCont, obj`nFrag
    modifies obj.fs`disk, obj.fs`fat2, obj.fs`wflag, obj.fs`winsect, obj.fs`stale
    modifies obj.fs`view, obj.fs`tab, obj.fs`bits, obj.fs.win
    modifies obj.fs`freeClst, obj.fs`lastClst, obj.fs`fsiDirty
    ensures obj.fs.Valid() && SameData(obj.fs.g, old(obj.fs.view), obj.fs.view) && ncl != 1
    ensures obj.fs.winsect == old(obj.fs.winsect) || IsMeta(obj.fs.g, obj.fs.winsect)
    ensures ncl == 0 ==>
              && ClearSet(obj.fs.bits) == {} && obj.fs.bits == old(obj.fs.bits) && obj.Fields() == old(obj.Fields())
              && FreeCountKnown(obj.fs)
    ensures ncl != 0 && ncl != DISK_ERROR ==>
              && ncl - 2 in ClearSet(old(obj.fs.bits)) && obj.fs.bits == old(obj.fs.bits)[ncl - 2 := true]
              && Represents(obj.Fields().(sclust := if clst == 0 then ncl else obj.sclust), ch + [ncl])
              && InUse(obj.fs.bits, ch + [ncl]) && FreeCountKnown(obj.fs) && IsMeta(obj.fs.g, obj.fs.winsect)
              && KeepsOthers(old(obj.fs.tab), obj.fs.tab, ch) == true && obj.fs.lastClst == ncl && obj.fs.fsiDirty
    ensures Counts(obj.fs.g, obj.fs.freeClst) <==> old(Counts(obj.fs.g, obj.fs.freeClst))
  {
    var fs := obj.fs;
    ghost var v := fs.view;
    ncl := TakeCluster(fs, scl);
    BitmapOnlySame(fs.g, v, fs.view);
    if ncl == 0 || ncl == DISK_ERROR { return; }
    ClearSetPut(old(fs.bits), ncl - 2);
    InUseAppend(old(fs.bits), ch, ncl);
    ghost var v1 := fs.view;
    var res := Extend(obj, clst, ncl, ch);
    SameDataTrans(fs.g, v, v1, fs.view);
    if res == Fine {
      fs.CountAllocated(ncl);
    } else {
      ncl := DISK_ERROR;
    }
  }

  lemma GrowStrict(s: Lazy, ch: seq<nat>)
    requires Represents(s, ch)
    ensures s.nFrag < ch[|ch| - 1]
  {
    TailBounds(s, ch);
    if s.stat != 2 && s.nFrag > 0 {
      assert ch[|ch| - s.nFrag] == ch[|ch| - 1] - (s.nFrag - 1);
    }
  }

  // ---- remove_chain ----

  /** The bitmap with the bits of the first `n` clusters of `ch` cleared. */
  function Freed(bits: seq<bool>, ch: seq<nat>, n: nat): (r: seq<bool>)
    requires n <= |ch| && forall i | 0 <= i < |ch| :: 2 <= ch[i] < |bits| + 2
    ensures |r| == |bits|
  {
    if n == 0 then bits else Freed(bits, ch, n - 1)[ch[n - 1] - 2 := false]
  }

  /** Freeing clears exactly one bit per cluster of the chain. */
  lemma {:induction false} FreedAt(bits: seq<bool>, ch: seq<nat>, n: nat, b: nat)
    requires n <= |ch| && b < |bits| && forall i | 0 <= i < |ch| :: 2 <= ch[i] < |bits| + 2
    ensures Freed(bits, ch, n)[b] == (bits[b] && forall i | 0 <= i < n :: ch[i] - 2 != b)
  {
    if n > 0 {
      FreedAt(bits, ch, n - 1, b);
    }
  }

  lemma {:induction false} FreedCount(bits: seq<bool>, ch: seq<nat>, n: nat)
    requires InUse(bits, ch) && Distinct(ch) && n <= |ch|
    ensures |ClearSet(Freed(bits, ch, n))| == |ClearSet(bits)| + n <= |bits|
  {
    if n > 0 {
      FreedCount(bits, ch, n - 1);
      var b := ch[n - 1] - 2;
      FreedAt(bits, ch, n - 1, b);
      assert ClearSet(Freed(bits, ch, n)) == ClearSet(Freed(bits, ch, n - 1)) + {b};
    }
    ClearBound(Freed(bits, ch, n));
  }

  lemma {:induction false} ClearBound(bits: seq<bool>)
    ensures |ClearSet(bits)| <= |bits|
  {
    if bits != [] {
      var front := bits[..|bits| - 1];
      ClearBound(front);
      assert ClearSet(bits) == if bits[|bits| - 1] then ClearSet(front) else ClearSet(front) + {|bits| - 1};
    }
  }

  /** A run of consecutive clusters of the chain is one range of the bitmap. */
  lemma {:induction false} FreedRun(bits: seq<bool>, ch: seq<nat>, p: nat, m: nat)
    requires p + m <= |ch| && InUse(bits, ch) && Consecutive(ch, p, p + m) && m > 0
    ensures ch[p] - 2 + m <= |bits|
    ensures SetRange(Freed(bits, ch, p), ch[p] - 2, m, false) == Freed(bits, ch, p + m)
    decreases m
  {
    ConsecutiveAt(ch, p, p + m, p, p + m - 1);
    if m > 1 {
      FreedRun(bits, ch, p, m - 1);
    } else {
      assert SetRange(Freed(bits, ch, p), ch[p] - 2, 0, false) == Freed(bits, ch, p);
    }
  }

  /** The clusters of a run are still in use when the run is freed. */
  lemma RunInUse(bits: seq<bool>, ch: seq<nat>, p: nat, m: nat, j: nat)
    requires p + m <= |ch| && InUse(bits, ch) && Distinct(ch) && Consecutive(ch, p, p + m) && m > 0
    requires ch[p] - 2 <= j < ch[p] - 2 + m
    ensures j < |bits| && Freed(bits, ch, p)[j]
  {
    var i := p + (j - (ch[p] - 2));
    ConsecutiveAt(ch, p, p + m, p, i);
    FreedAt(bits, ch, p, j);
  }

  /** Of the bitmap `bits` the first `p` clusters of the chain are freed. */
  ghost predicate FreedTo(fs: Volume, bits: seq<bool>, ch: seq<nat>, p: nat)
    requires p <= |ch| && InUse(bits, ch)
    reads fs`bits
  {
    fs.bits == Freed(bits, ch, p)
  }

  /** Free the clusters `ch[p]` to `ch[q - 1]`, a contiguous block. */
  method FreeBlock(fs: Volume, scl: nat, n: nat, ghost bits: seq<bool>, ghost ch: seq<nat>, ghost p: nat, ghost q: nat)
    returns (res: Status)
    requires fs.Valid() && fs.g.fsType == ExFat && |bits| == fs.g.nFatent - 2
    requires n > 0 && p + n == q <= |ch| && InUse(bits, ch) && Distinct(ch) && Consecutive(ch, p, q)
    requires scl == ch[p] && FreedTo(fs, bits, ch, p)
    modifies fs`disk, fs`fat2, fs`wflag, fs`winsect, fs`stale, fs`view, fs`bits, fs.win
    ensures fs.Valid() && BitmapOnly(fs.g, old(fs.view), fs.view) && res in {Fine, DiskErr}
    ensures res == Fine ==> FreedTo(fs, bits, ch, q) == true
  {
    FreedRun(bits, ch, p, n);
    forall j | ch[p] - 2 <= j < ch[p] - 2 + n
      ensures fs.bits[j]
    {
      RunInUse(bits, ch, p, n, j);
    }
    res := ChangeBitmap(fs, scl, n, false);
  }

  /** `assert OpenChain();` lets the verifier look inside `Sound`. */
  ghost predicate OpenChain(i: int := 0) {
    true
  }

  /** `obj` represents `ch`, with no fragment pending, and its size covers it. */
  ghost predicate Sound(obj: ObjectId, ch: seq<nat>)
    reads obj, obj.fs`tab
    requires obj.fs.g.ss > 0 && obj.fs.g.csize > 0
  {
    forall i {:trigger OpenChain(i)} :: OpenChain(i) ==>
      && obj.nFrag == 0 && Represents(obj.Fields(), ch)
      && Covers(obj.Fields(), obj.objsize > 0, if obj.objsize > 0 then LastIndex(obj.fs.g, obj.objsize) else 0, ch)
  }

  /** The value `get_fat` gives for the last cluster of the chain of `obj`. */
  ghost function EndValue(obj: ObjectId, ch: seq<nat>): nat
    reads obj, obj.fs`tab
    requires obj.fs.g.ss > 0 && obj.fs.g.csize > 0 && ch != [] && ch[|ch| - 1] < |obj.fs.tab|
  {
    NextOf(obj.Fields(), obj.objsize > 0, if obj.objsize > 0 then LastIndex(obj.fs.g, obj.objsize) else 0, ch[|ch| - 1])
  }

  /**
   Remove the whole chain `ch` of `obj`: consecutive clusters are freed as one block. On success
   exactly the bits of the chain are cleared, if and only if the end mark is not the number after
   the last cluster; otherwise the mark reads as one more cluster and the last block stays in use.
   */
  method RemoveChain(obj: ObjectId, clst: nat, ghost ch: seq<nat>) returns (res: Status)
    requires obj.fs.Valid() && obj.fs.g.fsType == ExFat && obj.fs.g.ss > 0 && obj.fs.g.csize > 0
    requires FreeCountKnown(obj.fs) && InUse(obj.fs.bits, ch) && obj.nFrag == 0
    requires Represents(obj.Fields(), ch) && clst == ch[0]
    requires Covers(obj.Fields(), obj.objsize > 0, if obj.objsize > 0 then LastIndex(obj.fs.g, obj.objsize) else 0, ch)
    modifies obj`stat
    modifies obj.fs`disk, obj.fs`fat2, obj.fs`wflag, obj.fs`winsect, obj.fs`stale, obj.fs`view, obj.fs`bits, obj.fs.win
    modifies obj.fs`freeClst, obj.fs`fsiDirty
    ensures obj.fs.Valid() && res in {Fine, DiskErr}
    ensures res == Fine ==> obj.stat == 0
    ensures res == Fine && old(EndValue(obj, ch)) != ch[|ch| - 1] + 1 ==>
              obj.fs.bits == Freed(old(obj.fs.bits), ch, |ch|) && FreeCountKnown(obj.fs)
    ensures res == Fine && old(EndValue(obj, ch)) == ch[|ch| - 1] + 1 ==> obj.fs.bits[ch[|ch| - 1] - 2]
    ensures Counts(obj.fs.g, obj.fs.freeClst) <==> old(Counts(obj.fs.g, obj.fs.freeClst))
  {
    res := FreeChain(obj, clst, ch);
    if res == Fine { obj.stat := 0; }
  }

  /** The loop of `remove_chain`. */
  method FreeChain(obj: ObjectId, clst: nat, ghost ch: seq<nat>) returns (res: Status)
    requires obj.fs.Valid() && obj.fs.g.fsType == ExFat && obj.fs.g.ss > 0 && obj.fs.g.csize > 0
    requires FreeCountKnown(obj.fs) && InUse(obj.fs.bits, ch) && Distinct(ch)
    requires ch != [] && Sound(obj, ch) && clst == ch[0]
    modifies obj.fs`disk, obj.fs`fat2, obj.fs`wflag, obj.fs`winsect, obj.fs`stale, obj.fs`view, obj.fs`bits, obj.fs.win
    modifies obj.fs`freeClst, obj.fs`fsiDirty
    ensures obj.fs.Valid() && res in {Fine, DiskErr}
    ensures res == Fine && EndValue(obj, ch) != ch[|ch| - 1] + 1 ==>
              obj.fs.bits == Freed(old(obj.fs.bits), ch, |ch|) && FreeCountKnown(obj.fs)
    ensures res == Fine && EndValue(obj, ch) == ch[|ch| - 1] + 1 ==> obj.fs.bits[ch[|ch| - 1] - 2]
    ensures Counts(obj.fs.g, obj.fs.freeClst) <==> old(Counts(obj.fs.g, obj.fs.freeClst))
  {
    var fs := obj.fs;
    ghost var bits := fs.bits;
    var cl, scl, ecl := clst, clst, clst;
    ghost var k: nat, p: nat := 0, 0;
    FreedCount(bits, ch, |ch|);
    while true
      invariant fs.Valid() && Stage(fs, bits, ch, k, p, scl, ecl) && cl == ecl
      invariant Counted(fs, old(fs.freeClst), k) && (Counts(fs.g, fs.freeClst) <==> old(Counts(fs.g, fs.freeClst)))
      decreases |ch| - k
    {
      res, cl, scl, ecl, p := FreeStep(obj, cl, scl, ecl, bits, ch, k, p);
      if res != Fine { return; }
      if cl >= fs.g.nFatent { break; }
      k := k + 1;
    }
    if p < |ch| { FreedAt(bits, ch, p, ch[|ch| - 1] - 2); }
  }

  /** Clusters before index `p` are freed; those from `p` to `k` are the block from `scl` to `ecl`. */
  ghost predicate Stage(fs: Volume, bits: seq<bool>, ch: seq<nat>, k: nat, p: nat, scl: nat, ecl: nat)
    reads fs`bits
    requires InUse(bits, ch)
  {
    p <= k < |ch| && ecl == ch[k] && scl == ch[p] && Consecutive(ch, p, k + 1) && FreedTo(fs, bits, ch, p) == true
  }

  /** `k` clusters were added to a counter that is known. */
  ghost predicate Counted(fs: Volume, was: nat, k: nat)
    reads fs`freeClst
  {
    if was > fs.g.nFatent - 2 then fs.freeClst == was else fs.freeClst == was + k
  }

  /** One round: follow the chain, and free the current block when it ends. */
  method FreeStep(obj: ObjectId, cl: nat, scl: nat, ecl: nat, ghost bits: seq<bool>, ghost ch: seq<nat>, ghost k: nat,
                  ghost p: nat)
    returns (res: Status, nxt: nat, scl': nat, ecl': nat, ghost p': nat)
    requires obj.fs.Valid() && obj.fs.g.fsType == ExFat && obj.fs.g.ss > 0 && obj.fs.g.csize > 0
    requires InUse(bits, ch) && Distinct(ch) && |bits| == obj.fs.g.nFatent - 2 && Sound(obj, ch)
    requires Stage(obj.fs, bits, ch, k, p, scl, ecl) && cl == ecl
    modifies obj.fs`disk, obj.fs`fat2, obj.fs`wflag, obj.fs`winsect, obj.fs`stale, obj.fs`view, obj.fs`bits, obj.fs.win
    modifies obj.fs`freeClst, obj.fs`fsiDirty
    ensures obj.fs.Valid() && res in {Fine, DiskErr}
    ensures res == Fine && k + 1 < |ch| ==>
              nxt == ecl' == ch[k + 1] < obj.fs.g.nFatent && Stage(obj.fs, bits, ch, k + 1, p', scl', ecl')
    ensures res == Fine && k + 1 == |ch| ==>
              && nxt == EndValue(obj, ch) >= obj.fs.g.nFatent
              && p' == (if nxt == ecl + 1 then p else k + 1) && FreedTo(obj.fs, bits, ch, p') == true
    ensures res == Fine ==>
              obj.fs.freeClst == if old(obj.fs.freeClst) < obj.fs.g.nFatent - 2 then old(obj.fs.freeClst) + 1 else old(obj.fs.freeClst)
    ensures Counts(obj.fs.g, obj.fs.freeClst) <==> old(Counts(obj.fs.g, obj.fs.freeClst))
  {
    nxt := Following(obj, cl, ch, k);
    scl', ecl', p' := scl, nxt, p;
    if nxt == DISK_ERROR { res := DiskErr; return; }
    res := Fine;
    obj.fs.CountFreed();
    if ecl + 1 != nxt {
      ConsecutiveAt(ch, p, k + 1, p, k);
      res := FreeBlock(obj.fs, scl, ecl - scl + 1, bits, ch, p, k + 1);
      scl', p' := nxt, k + 1;
    }
  }

  /** `get_fat` on a cluster of a sound chain: the checks for an empty or an insane entry never fire. */
  method Following(obj: ObjectId, cl: nat, ghost ch: seq<nat>, ghost k: nat) returns (nxt: nat)
    requires obj.fs.Valid() && obj.fs.g.fsType == ExFat && obj.fs.g.ss > 0 && obj.fs.g.csize > 0
    requires k < |ch| && cl == ch[k] && Sound(obj, ch) && ch[|ch| - 1] < obj.fs.g.nFatent
    modifies obj.fs`disk, obj.fs`fat2, obj.fs`wflag, obj.fs`winsect, obj.fs`stale, obj.fs.win
    ensures obj.fs.Valid() && nxt > 1
    ensures nxt != DISK_ERROR ==>
              if k + 1 < |ch| then nxt == ch[k + 1] else nxt == EndValue(obj, ch) >= obj.fs.g.nFatent
  {
    assert OpenChain();
    NextOnChain(obj.Fields(), obj.objsize > 0, if obj.objsize > 0 then LastIndex(obj.fs.g, obj.objsize) else 0, ch, k);
    nxt := GetFat(obj, cl);
  }
}
