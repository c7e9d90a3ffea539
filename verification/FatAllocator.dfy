/** `get_fat`, `create_chain` and `remove_chain` on FAT12, FAT16 and FAT32 volumes. */
module FatAllocator {
  import opened FatCodec
  import opened Volumes
  import opened Chains

  /** The entry value an all-ones `put_fat` leaves: an end-of-chain mark. */
  function EndMark(g: Geometry): nat {
    Cut(g.fsType, END_OF_CHAIN)
  }

  lemma EndMarkEnds(g: Geometry)
    requires g.nFatent <= MaxEntries(g.fsType)
    ensures EndMark(g) >= g.nFatent
  {
  }

  /** A cluster number fits an entry. */
  lemma ClusterFits(t: FsType, c: nat)
    requires c < MaxEntries(t)
    ensures Cut(t, c) == c
  {
  }

  /** The free-cluster counter is right, or says that it does not know. */
  ghost predicate FreeCountKnown(fs: Volume)
    reads fs
  {
    CountKnown(fs.g, fs.freeClst, |FreeSet(fs.tab)|)
  }

  method GetFat(fs: Volume, clst: nat) returns (val: nat)
    requires fs.Valid()
    modifies fs`disk, fs`fat2, fs`wflag, fs`winsect, fs`stale, fs.win
    ensures fs.Valid() && (fs.winsect == old(fs.winsect) || IsMeta(fs.g, fs.winsect))
    ensures !(2 <= clst < fs.g.nFatent) ==> val == 1
    ensures 2 <= clst < fs.g.nFatent ==> val == DISK_ERROR || val == fs.tab[clst]
  {
    if clst < 2 || clst >= fs.g.nFatent {
      val := 1;
    } else {
      val := fs.ReadEntry(clst);
    }
  }

  ghost predicate NoneFree(t: seq<nat>, lo: nat, hi: nat) {
    hi <= |t| && forall c | lo <= c < hi :: t[c] != 0
  }

  /** The scan that started after `scl` has passed `ncl` without finding a free cluster. */
  ghost predicate Scanned(t: seq<nat>, scl: nat, ncl: nat, wrapped: bool) {
    if wrapped then 2 <= ncl < scl && NoneFree(t, scl + 1, |t|) && NoneFree(t, 2, ncl + 1)
    else scl <= ncl < |t| && NoneFree(t, scl + 1, ncl + 1)
  }

  /** The next cluster is not free either: go on, or all clusters are in use. */
  lemma ScannedNext(t: seq<nat>, scl: nat, ncl: nat, wrapped: bool)
    requires 1 <= scl < |t| && Scanned(t, scl, ncl, wrapped)
    ensures ncl + 1 >= |t| && 2 > scl ==> FreeSet(t) == {}
    ensures var next := if ncl + 1 >= |t| then 2 else ncl + 1;
            next <= scl || ncl + 1 < |t| ==>
              && next < |t|
              && (t[next] != 0 && next == scl ==> FreeSet(t) == {})
              && (t[next] != 0 && next != scl ==> Scanned(t, scl, next, wrapped || ncl + 1 >= |t|))
  {
    var next := if ncl + 1 >= |t| then 2 else ncl + 1;
    if next < |t| && t[next] != 0 && next == scl {
      forall c | 2 <= c < |t|
        ensures t[c] != 0
      {
      }
    }
  }

  /** Search the whole table for a free cluster, from `scl + 1` around to `scl`. */
  method ScanFree(fs: Volume, scl: nat) returns (ncl: nat)
    requires fs.Valid() && 1 <= scl < fs.g.nFatent
    modifies fs`disk, fs`fat2, fs`wflag, fs`winsect, fs`stale, fs.win
    ensures fs.Valid() && (fs.winsect == old(fs.winsect) || IsMeta(fs.g, fs.winsect))
    ensures ncl <= 1 || ncl == DISK_ERROR || ncl in FreeSet(fs.tab)
    ensures ncl == 0 ==> FreeSet(fs.tab) == {}
    ensures ncl == 1 ==> exists c | 2 <= c < fs.g.nFatent :: fs.tab[c] == 1
  {
    ghost var t := fs.tab;
    ghost var wrapped := false;
    ncl := scl;
    while true
      invariant fs.Valid()
      invariant fs.winsect == old(fs.winsect) || IsMeta(fs.g, fs.winsect)
      invariant Scanned(t, scl, ncl, wrapped)
      decreases !wrapped, |t| - ncl
    {
      ScannedNext(t, scl, ncl, wrapped);
      ncl := ncl + 1;
      if ncl >= fs.g.nFatent {
        ncl := 2;
        if ncl > scl { return 0; }
        wrapped := true;
      }
      var cs := GetFat(fs, ncl);
      if cs == 0 { return; }
      if cs == 1 || cs == DISK_ERROR { return cs; }
      if ncl == scl { return 0; }
    }
  }

  /** Choose the cluster to allocate: the one after the tail if it is free, else any free one. */
  method ChooseFree(fs: Volume, clst: nat) returns (ncl: nat)
    requires fs.Valid() && (clst == 0 || 2 <= clst < fs.g.nFatent)
    modifies fs`disk, fs`fat2, fs`wflag, fs`winsect, fs`stale, fs.win
    ensures fs.Valid() && (fs.winsect == old(fs.winsect) || IsMeta(fs.g, fs.winsect))
    ensures ncl <= 1 || ncl == DISK_ERROR || ncl in FreeSet(fs.tab)
    ensures ncl == 0 ==> FreeSet(fs.tab) == {}
    ensures ncl == 1 ==> exists c | 2 <= c < fs.g.nFatent :: fs.tab[c] == 1
  {
    var scl := clst;
    if clst == 0 {
      scl := fs.lastClst;
      if scl == 0 || scl >= fs.g.nFatent { scl := 1; }
    }
    ncl := 0;
    if scl == clst {
      ncl := scl + 1;
      if ncl >= fs.g.nFatent { ncl := 2; }
      var cs := GetFat(fs, ncl);
      if cs == 1 || cs == DISK_ERROR { return cs; }
      if cs != 0 {
        cs := fs.lastClst;
        if cs >= 2 && cs < fs.g.nFatent { scl := cs; }
        ncl := 0;
      }
    }
    if ncl == 0 {
      ncl := ScanFree(fs, scl);
    }
  }

  /** Mark `ncl` as the end of the chain that ended in `clst`. */
  method WriteLinks(fs: Volume, clst: nat, ncl: nat) returns (res: Status)
    requires fs.Valid() && fs.g.fsType != ExFat
    requires 2 <= ncl < fs.g.nFatent && (clst == 0 || 2 <= clst < fs.g.nFatent)
    modifies fs`disk, fs`fat2, fs`wflag, fs`winsect, fs`stale, fs.win, fs`view, fs`tab
    ensures fs.Valid() && FatOnly(fs.g, old(fs.view), fs.view) && res in {Fine, DiskErr}
    ensures fs.winsect == old(fs.winsect) || IsMeta(fs.g, fs.winsect)
    ensures res == Fine ==> fs.tab == Stretched(old(fs.tab), clst, ncl, EndMark(fs.g)) && InFat(fs.g, fs.winsect)
  {
    res := fs.PutFat(ncl, END_OF_CHAIN);
    if res == Fine && clst != 0 {
      ClusterFits(fs.g.fsType, ncl);
      res := fs.PutFat(clst, ncl);
    }
  }

  /** Give cluster `ncl` to the chain that ends in `clst` and update the counters. */
  method LinkCluster(fs: Volume, clst: nat, ncl: nat) returns (res: Status)
    requires fs.Valid() && fs.g.fsType != ExFat && FreeCountKnown(fs)
    requires ncl in FreeSet(fs.tab)
    requires clst == 0 || (2 <= clst < fs.g.nFatent && fs.tab[clst] != 0)
    modifies fs`disk, fs`fat2, fs`wflag, fs`winsect, fs`stale, fs.win
    modifies fs`freeClst, fs`lastClst, fs`fsiDirty, fs`view, fs`tab
    ensures fs.Valid() && FatOnly(fs.g, old(fs.view), fs.view) && res in {Fine, DiskErr}
    ensures fs.winsect == old(fs.winsect) || IsMeta(fs.g, fs.winsect)
    ensures res == Fine ==>
              && fs.tab == Stretched(old(fs.tab), clst, ncl, EndMark(fs.g))
              && InFat(fs.g, fs.winsect) && FreeCountKnown(fs) && fs.lastClst == ncl && fs.fsiDirty
    ensures Counts(fs.g, fs.freeClst) <==> old(Counts(fs.g, fs.freeClst))
  {
    ghost var t := fs.tab;
    EndMarkEnds(fs.g);
    StretchedFree(t, clst, ncl, EndMark(fs.g));
    res := WriteLinks(fs, clst, ncl);
    if res == Fine {
      assert |FreeSet(fs.tab)| == |FreeSet(t)| - 1;
      fs.CountAllocated(ncl);
    }
  }

  /** `clst` is the tail of a chain, or stands for a new chain. */
  ghost predicate AtTail(t: seq<nat>, clst: nat) {
    clst == 0 || (2 <= clst < |t| && t[clst] >= |t|)
  }

  /**
   Stretch the chain that ends in `clst`, or create one when `clst` is 0.
   Returns the new cluster, the next one if the chain goes on, 0 when the disk is full,
   1 when the FAT is insane and DISK_ERROR on a disk error.
   */
  method CreateChain(fs: Volume, clst: nat) returns (ncl: nat)
    requires fs.Valid() && fs.g.fsType != ExFat && FreeCountKnown(fs)
    modifies fs`disk, fs`fat2, fs`wflag, fs`winsect, fs`stale, fs.win
    modifies fs`freeClst, fs`lastClst, fs`fsiDirty, fs`view, fs`tab
    ensures fs.Valid() && FatOnly(fs.g, old(fs.view), fs.view)
    ensures fs.winsect == old(fs.winsect) || IsMeta(fs.g, fs.winsect)
    ensures ncl in {0, 1} ==> fs.view == old(fs.view) && fs.tab == old(fs.tab) && FreeCountKnown(fs)
    ensures ncl == 0 ==> AtTail(fs.tab, clst) && FreeSet(fs.tab) == {}
    ensures ncl == 1 ==> (clst != 0 && (!(2 <= clst < fs.g.nFatent) || fs.tab[clst] < 2))
                         || exists c | 2 <= c < fs.g.nFatent :: fs.tab[c] == 1
    ensures ncl >= 2 && ncl != DISK_ERROR && !AtTail(old(fs.tab), clst) ==>
              && clst < fs.g.nFatent && ncl == fs.tab[clst] < fs.g.nFatent
              && fs.view == old(fs.view) && fs.tab == old(fs.tab) && FreeCountKnown(fs)
    ensures ncl >= 2 && ncl != DISK_ERROR && AtTail(old(fs.tab), clst) ==>
              && ncl in FreeSet(old(fs.tab))
              && fs.tab == Stretched(old(fs.tab), clst, ncl, EndMark(fs.g))
              && InFat(fs.g, fs.winsect) && FreeCountKnown(fs) && fs.lastClst == ncl && fs.fsiDirty
    ensures Counts(fs.g, fs.freeClst) <==> old(Counts(fs.g, fs.freeClst))
  {
    if clst != 0 {
      var cs := GetFat(fs, clst);
      if cs < 2 { return 1; }
      if cs == DISK_ERROR { return cs; }
      if cs < fs.g.nFatent { return cs; }
    }
    if fs.freeClst == 0 { return 0; }
    ncl := ChooseFree(fs, clst);
    if ncl <= 1 || ncl == DISK_ERROR { return; }
    var res := LinkCluster(fs, clst, ncl);
    if res != Fine { ncl := DISK_ERROR; }
  }

  /** The table from which the removal starts: the previous cluster, if any, ends its chain. */
  ghost function Detached(g: Geometry, t: seq<nat>, pclst: nat): (t': seq<nat>)
    requires pclst == 0 || 2 <= pclst < |t|
    ensures |t'| == |t|
  {
    if pclst == 0 then t else t[pclst := EndMark(g)]
  }

  lemma DetachedFree(g: Geometry, t: seq<nat>, pclst: nat)
    requires g.nFatent <= MaxEntries(g.fsType) && (pclst == 0 || (2 <= pclst < |t| && t[pclst] != 0))
    ensures FreeSet(Detached(g, t, pclst)) == FreeSet(t)
  {
  }

  /** Free cluster `clst` and count it. */
  method FreeCluster(fs: Volume, clst: nat) returns (res: Status)
    requires fs.Valid() && FreeCountKnown(fs)
    requires 2 <= clst < fs.g.nFatent && fs.tab[clst] > 1
    modifies fs`disk, fs`fat2, fs`wflag, fs`winsect, fs`stale, fs.win, fs`freeClst, fs`fsiDirty, fs`view, fs`tab
    ensures fs.Valid() && FatOnly(fs.g, old(fs.view), fs.view) && res in {Fine, DiskErr}
    ensures fs.winsect == old(fs.winsect) || IsMeta(fs.g, fs.winsect)
    ensures res == Fine ==> fs.tab == old(fs.tab)[clst := 0] && FreeCountKnown(fs)
    ensures Counts(fs.g, fs.freeClst) <==> old(Counts(fs.g, fs.freeClst))
  {
    RemoveStep(fs.tab, clst);
    ClusterFits(fs.g.fsType, 0);
    res := fs.PutFat(clst, 0);
    if res == Fine {
      fs.CountFreed();
    }
  }

  /**
   Remove the chain from `clst` on. On any FAT, cyclic ones included, this ends, with the table
   that `RemoveFrom` gives.
   */
  method RemoveChain(fs: Volume, clst: nat, pclst: nat) returns (res: Status)
    requires fs.Valid() && fs.g.fsType != ExFat && FreeCountKnown(fs)
    requires pclst == 0 || !(2 <= pclst < fs.g.nFatent) || fs.tab[pclst] != 0
    modifies fs`disk, fs`fat2, fs`wflag, fs`winsect, fs`stale, fs.win, fs`freeClst, fs`fsiDirty, fs`view, fs`tab
    ensures fs.Valid() && FatOnly(fs.g, old(fs.view), fs.view)
    ensures fs.winsect == old(fs.winsect) || IsMeta(fs.g, fs.winsect)
    ensures !(2 <= clst < fs.g.nFatent) || !(pclst == 0 || 2 <= pclst < fs.g.nFatent) ==>
              res == IntErr
    ensures res != DiskErr && 2 <= clst < fs.g.nFatent && (pclst == 0 || 2 <= pclst < fs.g.nFatent) ==>
              && RemoveFrom(Detached(fs.g, old(fs.tab), pclst), clst) == Removal(fs.tab, res == Fine)
              && FreeCountKnown(fs)
    ensures Counts(fs.g, fs.freeClst) <==> old(Counts(fs.g, fs.freeClst))
  {
    if clst < 2 || clst >= fs.g.nFatent { return IntErr; }
    res := Fine;
    if pclst != 0 {
      if 2 <= pclst < fs.g.nFatent { DetachedFree(fs.g, fs.tab, pclst); }
      res := fs.PutFat(pclst, END_OF_CHAIN);
      if res != Fine { return; }
    }
    ghost var goal := RemoveFrom(fs.tab, clst);
    ghost var tab := fs.tab;
    var cl := clst;
    while true
      invariant fs.Valid() && FatOnly(fs.g, old(fs.view), fs.view)
      invariant FreeCountKnown(fs) && tab == fs.tab && (fs.winsect == old(fs.winsect) || IsMeta(fs.g, fs.winsect))
      invariant 2 <= cl < fs.g.nFatent && RemoveFrom(tab, cl) == goal
      invariant Counts(fs.g, fs.freeClst) <==> old(Counts(fs.g, fs.freeClst))
      decreases |UsedSet(tab)|
    {
      var nxt := GetFat(fs, cl);
      if nxt == 0 { return Fine; }
      if nxt == 1 { return IntErr; }
      if nxt == DISK_ERROR { return DiskErr; }
      RemoveStep(tab, cl);
      res := FreeCluster(fs, cl);
      if res != Fine { return; }
      tab := fs.tab;
      if nxt >= fs.g.nFatent { return Fine; }
      cl := nxt;
    }
  }
}
