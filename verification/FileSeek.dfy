/** `f_lseek` and the data part of `f_sync`. */
module FileSeek {
  import opened Arith
  import opened FatCodec
  import opened Volumes
  import Chains
  import ExfatLazy
  import opened ExfatAllocator
  import opened FileMap
  import opened FileBuffer
  import opened FileChain
  import opened FileLayer

  /** The walk along the chain is at the start of cluster `k`. */
  ghost predicate Walking(f: File, k: nat)
    reads f`fptr, f`clust, f`sect, f`dirty, f`chain, f`addrs, f`secs, f`mark, f.buf
    reads f.obj`sclust, f.obj`objsize, f.obj`stat, f.obj`nCont, f.obj`nFrag, f.obj.fs, f.obj.fs.win
  {
    && f.Sound() && Chained(f)
    && k < |f.chain| && f.clust == f.chain[k] && f.fptr == Room(f.obj.fs.g, k)
    && f.obj.objsize <= Room(f.obj.fs.g, |f.chain|)
    && (f.obj.fs.g.fsType == ExFat ==>
          && (f.obj.nFrag > 0 ==> k + 1 == |f.chain|)
          && (f.obj.objsize > Room(f.obj.fs.g, |f.chain| - 1) || k + 1 == |f.chain|))
    && (f.obj.fs.g.fsType != ExFat ==> f.obj.objsize <= 0xFFFF_FFFF)
  }

  lemma {:induction false} RoomStep(g: Geometry, k: nat)
    ensures Room(g, k + 1) == Room(g, k) + Times(g.ss, g.csize)
    ensures g.ss > 0 && g.csize > 0 ==> Room(g, k + 1) > Room(g, k)
  {
    TimesAdd(g.ss, Times(g.csize, k), g.csize);
    if g.csize > 0 { TimesMono(g.ss, 1, g.csize); }
  }

  lemma {:induction false} RoomMono(g: Geometry, a: nat, b: nat)
    requires a <= b
    ensures Room(g, a) <= Room(g, b)
  {
    TimesMono(g.csize, a, b);
    TimesMono(g.ss, Times(g.csize, a), Times(g.csize, b));
  }

  /** Growing the file, in its clusters or its size, keeps its bytes. */
  lemma {:induction false} Grown(secs: seq<Sector>, size: nat, secs': seq<Sector>, size': nat)
    requires secs <= secs' && size <= size' && size <= |Flat(secs)| && size' <= |Flat(secs')|
    ensures Prefix(Flat(secs), size) <= Prefix(Flat(secs'), size')
  {
    PrefixGrown(secs, secs', size);
  }

  /** One cluster further, in write mode: the file grows as needed. */
  method StepForWrite(f: File, ghost k: nat) returns (clst: nat)
    requires Walking(f, k)
    requires f.obj.fs.g.fsType != ExFat ==> Room(f.obj.fs.g, k + 1) <= 0xFFFF_FFFF
    modifies f`fptr, f`clust, f`modified, f`chain, f`addrs, f`secs
    modifies f.obj`objsize, f.obj`sclust, f.obj`stat, f.obj`nCont, f.obj`nFrag
    modifies f.obj.fs`disk, f.obj.fs`fat2, f.obj.fs`wflag, f.obj.fs`winsect, f.obj.fs`stale, f.obj.fs.win
    modifies f.obj.fs`view, f.obj.fs`tab, f.obj.fs`bits, f.obj.fs`freeClst, f.obj.fs`lastClst, f.obj.fs`fsiDirty
    ensures f.obj.fs.Valid() && f.fptr == Room(f.obj.fs.g, k + 1) && f.obj.objsize == Max(old(f.obj.objsize), f.fptr)
    ensures clst == 0 || (clst >= 2 && clst != DISK_ERROR) ==>
              f.Sound() && Chained(f) && old(f.secs) <= f.secs && f.obj.objsize <= Room(f.obj.fs.g, |f.chain|)
    ensures clst == 0 ==> Walks(f, k) && k + 1 == |f.chain| && Full(f.obj.fs.g, f.obj.fs.tab, f.obj.fs.bits)
    ensures clst >= 2 && clst != DISK_ERROR ==> Walking(f, k + 1)
    ensures old(f.modified) ==> f.modified
  {
    Raise(f, k);
    ghost var n := |f.chain|;
    clst := Stretch(f, f.clust, k);
    if clst < 2 || clst == DISK_ERROR { return; }
    RoomMono(f.obj.fs.g, n, |f.chain|);
    f.clust := clst;
  }

  /** Move to the end of cluster `k`, and the end of the file no earlier. */
  method Raise(f: File, ghost k: nat)
    requires Walking(f, k)
    requires f.obj.fs.g.fsType != ExFat ==> Room(f.obj.fs.g, k + 1) <= 0xFFFF_FFFF
    modifies f`fptr, f`modified, f.obj`objsize
    ensures f.Sound() && Chained(f) && At(f, f.clust, k) && Walks(f, k) && f.clust >= 2
    ensures f.fptr == Room(f.obj.fs.g, k + 1) && f.obj.objsize == Max(old(f.obj.objsize), f.fptr)
    ensures old(f.modified) ==> f.modified
  {
    RoomHere(f);
    NextBoundary(f, k);
    f.fptr := f.fptr + f.obj.fs.g.ss * f.obj.fs.g.csize;
    if f.fptr > f.obj.objsize {
      f.obj.objsize := f.fptr;
      f.modified := true;
    }
  }

  /** The walk stopped at the end of cluster `k`. */
  ghost predicate Walks(f: File, k: nat)
    reads f`fptr, f`clust, f`chain, f.obj`objsize, f.obj`nFrag
  {
    && k < |f.chain| && f.clust == f.chain[k] && f.fptr == Room(f.obj.fs.g, k + 1) <= f.obj.objsize
    && Fits(f.obj.fs.g, f.obj.objsize, |f.chain|)
  }

  /** What is known when the walk reaches the end of cluster `k`. */
  lemma {:induction false} NextBoundary(f: File, k: nat)
    requires Walking(f, k)
    ensures f.obj.fs.g.ss * f.obj.fs.g.csize >= 0
    ensures Room(f.obj.fs.g, k + 1) == f.fptr + f.obj.fs.g.ss * f.obj.fs.g.csize
    ensures Room(f.obj.fs.g, k + 1) <= Room(f.obj.fs.g, |f.chain|)
    ensures f.obj.fs.g.fsType == ExFat ==> Max(f.obj.objsize, Room(f.obj.fs.g, k + 1)) > Room(f.obj.fs.g, |f.chain| - 1)
    ensures At(f, f.clust, k) && f.clust >= 2
  {
    var g := f.obj.fs.g;
    RoomHere(f);
    RoomStep(g, k);
    TimesIs(g.ss, g.csize);
    RoomMono(g, k + 1, |f.chain|);
    assert f.clust >= 2 by { assert OpenLinks(); }
  }

  /** One cluster further inside the file. */
  method StepForRead(f: File, ghost k: nat) returns (clst: nat)
    requires Walking(f, k) && Room(f.obj.fs.g, k + 1) < f.obj.objsize
    modifies f`fptr, f`clust, f.obj.fs`disk, f.obj.fs`fat2
    modifies f.obj.fs`wflag, f.obj.fs`winsect, f.obj.fs`stale, f.obj.fs.win
    ensures f.obj.fs.Valid()
    ensures clst != DISK_ERROR ==> 2 <= clst < f.obj.fs.g.nFatent && Walking(f, k + 1)
  {
    var g := f.obj.fs.g;
    RoomHere(f);
    NextBoundary(f, k);
    BelowRoom(g, k + 1, |f.chain|, f.obj.objsize);
    f.fptr := f.fptr + g.ss * g.csize;
    clst := Follow(f, f.clust, k);
    if clst == DISK_ERROR { return; }
    assert 2 <= f.chain[k + 1] < g.nFatent by { assert OpenLinks(); }
    f.clust := clst;
  }

  /** Where `rem` bytes past the start of cluster `k` are. */
  lemma {:induction false} RestPlace(g: Geometry, k: nat, rem: nat, r: nat, o: nat)
    requires g.ss > 0 && g.csize > 0 && 0 < rem <= Times(g.ss, g.csize) && rem == Times(g.ss, r) + o && o < g.ss
    ensures var p := Room(g, k) + rem;
            && ClusterOf(g, p - 1) == k && p <= Room(g, k + 1)
            && (o == 0 ==> Times(g.ss, Quot(p, g.ss)) == p)
            && (o > 0 ==> r < g.csize && Quot(p, g.ss) == Times(g.csize, k) + r && Times(g.ss, Quot(p, g.ss)) != p)
  {
    if o > 0 { PartPlace(g, k, r, o); } else { WholePlace(g, k, r); }
  }

  lemma {:induction false} PartPlace(g: Geometry, k: nat, r: nat, o: nat)
    requires g.ss > 0 && g.csize > 0 && Times(g.ss, r) + o <= Times(g.ss, g.csize) && 0 < o < g.ss
    ensures var p := Room(g, k) + Times(g.ss, r) + o;
            && ClusterOf(g, p - 1) == k && p <= Room(g, k + 1)
            && r < g.csize && Quot(p, g.ss) == Times(g.csize, k) + r && Times(g.ss, Quot(p, g.ss)) != p
  {
    var q := Times(g.csize, k);
    TimesAdd(g.ss, q, r);
    RoomStep(g, k);
    if r >= g.csize { TimesMono(g.ss, g.csize, r); }
    WithinPlace(g, q + r, 0, k, o, 0);
    QuotUnique(Room(g, k) + Times(g.ss, r) + o, g.ss, q + r);
  }

  lemma {:induction false} WholePlace(g: Geometry, k: nat, r: nat)
    requires g.ss > 0 && g.csize > 0 && 0 < Times(g.ss, r) <= Times(g.ss, g.csize)
    ensures var p := Room(g, k) + Times(g.ss, r);
            ClusterOf(g, p - 1) == k && p <= Room(g, k + 1) && Times(g.ss, Quot(p, g.ss)) == p
  {
    var q := Times(g.csize, k);
    TimesAdd(g.ss, q, r);
    RoomStep(g, k);
    if r > g.csize { TimesMono(g.ss, g.csize, r); }
    TimesMono(g.ss, q + r - 1, q + r);
    ClusterOfAt(g, Times(g.ss, q + r) - 1, q + r - 1, k);
    QuotUnique(Times(g.ss, q + r), g.ss, q + r);
  }

  /** Show sector `nsect` in the buffer. */
  method Refill(f: File, nsect: nat, ghost q: nat) returns (ok: bool)
    requires f.Sound() && q < |f.addrs| && nsect == f.addrs[q]
    modifies f`sect, f`dirty, f.buf, f.obj.fs`disk, f.obj.fs`view
    ensures f.obj.fs.Valid()
    ensures ok ==> f.Sound() && f.sect == nsect
  {
    ok := true;
    if nsect != f.sect {
      if f.dirty {
        ok := f.Flush();
        if !ok { return; }
      }
      ok := f.Load(nsect, q);
    }
  }

  /** What holds of the pointer and the size `rem` bytes into cluster `k`. */
  lemma {:induction false} Landing(f: File, rem: nat, k: nat, r: nat, o: nat)
    requires Walking(f, k) && 0 < rem <= Times(f.obj.fs.g.ss, f.obj.fs.g.csize)
    requires rem == Times(f.obj.fs.g.ss, r) + o && o < f.obj.fs.g.ss
    requires f.obj.fs.g.fsType != ExFat ==> f.fptr + rem <= 0xFFFF_FFFF
    ensures Fits(f.obj.fs.g, Max(f.obj.objsize, f.fptr + rem), |f.chain|) == true
    ensures ClusterKnown(f.obj.fs.g, f.fptr + rem, f.clust, f.chain, f.obj.nFrag) == true
    ensures o == 0 ==> Times(f.obj.fs.g.ss, Quot(f.fptr + rem, f.obj.fs.g.ss)) == f.fptr + rem
    ensures o > 0 ==> r < f.obj.fs.g.csize && Quot(f.fptr + rem, f.obj.fs.g.ss) == Times(f.obj.fs.g.csize, k) + r
  {
    RoomHere(f);
    RestPlace(f.obj.fs.g, k, rem, r, o);
    RoomMono(f.obj.fs.g, k + 1, |f.chain|);
  }

  /** Put the pointer `rem` bytes further, and the end of the file no earlier. */
  method Land(f: File, rem: nat)
    modifies f`fptr, f`modified, f.obj`objsize
    ensures f.fptr == old(f.fptr) + rem && f.obj.objsize == Max(old(f.obj.objsize), f.fptr)
    ensures old(f.modified) ==> f.modified
  {
    f.fptr := f.fptr + rem;
    if f.fptr > f.obj.objsize {
      f.obj.objsize := f.fptr;
      f.modified := true;
    }
  }

  /** Put the pointer `rem` bytes into cluster `k`; what sector it is in is left to see. */
  method LandAt(f: File, rem: nat, ghost k: nat) returns (r: nat, o: nat)
    requires Walking(f, k) && 0 < rem <= Times(f.obj.fs.g.ss, f.obj.fs.g.csize)
    requires f.obj.fs.g.fsType != ExFat ==> f.fptr + rem <= 0xFFFF_FFFF
    modifies f`fptr, f`modified, f.obj`objsize
    ensures f.Sound() && Chained(f) && ClusterPlaced(f) == true && k < |f.chain| && f.clust == f.chain[k] && f.obj.fs.g.ss > 0
    ensures f.fptr == old(f.fptr) + rem && f.obj.objsize == Max(old(f.obj.objsize), f.fptr)
    ensures o == 0 ==> Times(f.obj.fs.g.ss, Quot(f.fptr, f.obj.fs.g.ss)) == f.fptr
    ensures o > 0 ==> r < f.obj.fs.g.csize && Quot(f.fptr, f.obj.fs.g.ss) == Times(f.obj.fs.g.csize, k) + r
    ensures old(f.modified) ==> f.modified
  {
    RoomHere(f);
    r, o := Split(rem, f.obj.fs.g.ss);
    Landing(f, rem, k, r, o);
    Land(f, rem);
  }

  /** The end of the walk: `rem` bytes into cluster `k`. */
  method Finish(f: File, rem: nat, ghost k: nat) returns (res: Status)
    requires Walking(f, k) && 0 < rem <= Times(f.obj.fs.g.ss, f.obj.fs.g.csize)
    requires f.obj.fs.g.fsType != ExFat ==> f.fptr + rem <= 0xFFFF_FFFF
    modifies f`fptr, f`modified, f`sect, f`dirty, f.buf, f.obj`objsize, f.obj.fs`disk, f.obj.fs`view
    ensures f.obj.fs.Valid() && res in {Fine, DiskErr}
    ensures res == Fine ==> FileOk(f) && f.fptr == old(f.fptr) + rem && f.obj.objsize == Max(old(f.obj.objsize), f.fptr)
    ensures old(f.modified) ==> f.modified
  {
    var r, o := LandAt(f, rem, k);
    if o != 0 {
      SectorAt(f, k, r);
      var ok := Refill(f, Clst2Sect(f.obj.fs.g, f.clust) + r, Times(f.obj.fs.g.csize, k) + r);
      if !ok { return DiskErr; }
    }
    res := Fine;
  }

  lemma {:induction false} SectorAt(f: File, k: nat, r: nat)
    requires f.Sound() && Chained(f) && k < |f.chain| && f.clust == f.chain[k] && r < f.obj.fs.g.csize
    ensures Times(f.obj.fs.g.csize, k) + r < |f.addrs|
    ensures f.addrs[Times(f.obj.fs.g.csize, k) + r] == Clst2Sect(f.obj.fs.g, f.clust) + r
  {
    assert OpenLinks();
    AddrsAt(f.obj.fs.g, f.chain, k, r);
  }

  /** A walk stopped by a full disk leaves the pointer at the end of the last cluster. */
  lemma {:induction false} StoppedOk(f: File, k: nat)
    requires f.Sound() && Chained(f) && Walks(f, k) && k + 1 == |f.chain|
    ensures FileOk(f)
  {
    RoomHere(f);
    RoomStep(f.obj.fs.g, k);
    TimesMono(f.obj.fs.g.ss, 1, f.obj.fs.g.csize);
    WholePlace(f.obj.fs.g, k, f.obj.fs.g.csize);
  }

  /** One cluster further. */
  method Step(f: File, ghost k: nat) returns (clst: nat)
    requires Walking(f, k) && (f.canWrite || Room(f.obj.fs.g, k + 1) < f.obj.objsize)
    requires f.obj.fs.g.fsType != ExFat ==> Room(f.obj.fs.g, k + 1) <= 0xFFFF_FFFF
    modifies f`fptr, f`clust, f`modified, f`chain, f`addrs, f`secs
    modifies f.obj`objsize, f.obj`sclust, f.obj`stat, f.obj`nCont, f.obj`nFrag
    modifies f.obj.fs`disk, f.obj.fs`fat2, f.obj.fs`wflag, f.obj.fs`winsect, f.obj.fs`stale, f.obj.fs.win
    modifies f.obj.fs`view, f.obj.fs`tab, f.obj.fs`bits, f.obj.fs`freeClst, f.obj.fs`lastClst, f.obj.fs`fsiDirty
    ensures f.obj.fs.Valid()
    ensures clst == 0 || (clst >= 2 && clst != DISK_ERROR) ==>
              old(f.secs) <= f.secs && f.fptr == Room(f.obj.fs.g, k + 1) && f.obj.objsize == Max(old(f.obj.objsize), f.fptr)
    ensures clst == 0 ==>
              && f.Sound() && Chained(f) && Walks(f, k) && k + 1 == |f.chain|
              && f.canWrite && Full(f.obj.fs.g, f.obj.fs.tab, f.obj.fs.bits)
    ensures clst >= 2 && clst != DISK_ERROR ==> Walking(f, k + 1) == true
    ensures old(f.modified) ==> f.modified
  {
    if f.canWrite { clst := StepForWrite(f, k); } else { clst := StepForRead(f, k); }
  }

  /** The cluster-following loop: on to the cluster that holds byte `ofs - 1` past the start of cluster `k0`. */
  method Walk(f: File, ofs: nat, ghost k0: nat) returns (res: Status, rem: nat, full: bool, ghost k: nat)
    requires Walking(f, k0) && ofs > 0 && (f.canWrite || f.fptr + ofs <= f.obj.objsize) && f.fptr <= f.obj.objsize
    requires f.obj.fs.g.fsType != ExFat ==> f.fptr + ofs <= 0xFFFF_FFFF
    modifies f`fptr, f`clust, f`modified, f`chain, f`addrs, f`secs
    modifies f.obj`objsize, f.obj`sclust, f.obj`stat, f.obj`nCont, f.obj`nFrag
    modifies f.obj.fs`disk, f.obj.fs`fat2, f.obj.fs`wflag, f.obj.fs`winsect, f.obj.fs`stale, f.obj.fs.win
    modifies f.obj.fs`view, f.obj.fs`tab, f.obj.fs`bits, f.obj.fs`freeClst, f.obj.fs`lastClst, f.obj.fs`fsiDirty
    ensures f.obj.fs.Valid() && res in {Fine, DiskErr, IntErr}
    ensures res == Fine ==> old(f.secs) <= f.secs && f.obj.objsize == Max(old(f.obj.objsize), f.fptr)
    ensures res == Fine && !full ==>
              Walking(f, k) && f.fptr + rem == old(f.fptr) + ofs && 0 < rem <= Times(f.obj.fs.g.ss, f.obj.fs.g.csize)
    ensures res == Fine && full ==>
              && f.Sound() && Chained(f) && Walks(f, k) && k + 1 == |f.chain| && old(f.obj.objsize) <= f.fptr < old(f.fptr) + ofs
              && f.canWrite && Full(f.obj.fs.g, f.obj.fs.tab, f.obj.fs.bits)
    ensures old(f.modified) ==> f.modified
  {
    var g := f.obj.fs.g;
    ghost var p, size, secs := f.fptr, f.obj.objsize, f.secs;
    RoomHere(f);
    TimesIs(g.ss, g.csize);
    res, rem, full, k := Fine, ofs, false, k0;
    while rem > g.ss * g.csize
      invariant Walking(f, k) == true && f.fptr + rem == p + ofs && rem > 0
      invariant secs <= f.secs && f.obj.objsize == Max(size, f.fptr) && (old(f.modified) ==> f.modified)
      decreases rem
    {
      RoomStep(g, k);
      var clst := Step(f, k);
      if clst == 0 {
        full := true;
        return;
      }
      if clst == DISK_ERROR { res := DiskErr; return; }
      if clst <= 1 { res := IntErr; return; }
      rem, k := rem - g.ss * g.csize, k + 1;
    }
  }

  /** Dividing by the cluster size gives the index of the cluster. */
  lemma {:induction false} ClusterIndex(g: Geometry, x: nat)
    requires g.ss > 0 && g.csize > 0
    ensures g.ss * g.csize > 0 && x / (g.ss * g.csize) == ClusterOf(g, x)
    ensures x / (g.ss * g.csize) * (g.ss * g.csize) == Room(g, ClusterOf(g, x)) <= x
  {
    QuotIs(x, g.ss);
    QuotIs(Quot(x, g.ss), g.csize);
    DivDiv(x, g.ss, g.csize);
    RoomIs(g, ClusterOf(g, x));
    DivModOf(x, g.ss * g.csize);
  }

  lemma {:induction false} RoomIs(g: Geometry, k: nat)
    ensures Room(g, k) == k * (g.ss * g.csize) == g.ss * g.csize * k
  {
    TimesIs(g.csize, k);
    TimesIs(g.ss, g.csize * k);
    assert g.ss * (g.csize * k) == g.ss * g.csize * k;
  }

  /** The pointer and its cluster are known, all links are on the FAT. */
  ghost predicate AtRest(f: File)
    reads f`fptr, f`clust, f`sect, f`dirty, f`chain, f`addrs, f`secs, f`mark, f.buf
    reads f.obj`sclust, f.obj`objsize, f.obj`stat, f.obj`nCont, f.obj`nFrag, f.obj.fs, f.obj.fs.win
  {
    f.Sound() && Chained(f) && ClusterPlaced(f) && (f.obj.fs.g.fsType == ExFat ==> f.obj.nFrag == 0)
  }

  /** Start from the current cluster. */
  lemma {:induction false} FromHere(f: File, fptr: nat, k: nat)
    requires f.Sound() && Chained(f) && Fits(f.obj.fs.g, f.obj.objsize, |f.chain|) && 0 < fptr <= f.obj.objsize
    requires ClusterKnown(f.obj.fs.g, fptr, f.clust, f.chain, f.obj.nFrag) && k == ClusterOf(f.obj.fs.g, fptr - 1)
    requires f.fptr == Room(f.obj.fs.g, k)
    ensures Walking(f, k)
  {
  }

  lemma {:induction false} FromTop(f: File)
    requires f.Sound() && Chained(f) && f.chain != [] && f.clust == f.chain[0] && f.fptr == 0
    requires f.obj.objsize <= Room(f.obj.fs.g, |f.chain|) && (f.obj.fs.g.fsType != ExFat ==> f.obj.objsize <= 0xFFFF_FFFF)
    requires f.obj.fs.g.fsType == ExFat ==>
               (f.obj.nFrag == 0 || |f.chain| == 1) && (f.obj.objsize > Room(f.obj.fs.g, |f.chain| - 1) || |f.chain| == 1)
    ensures Walking(f, 0)
  {
    RoomHere(f);
  }

  /** Go back to the first cluster, creating a chain if there is none. */
  method Rewind(f: File) returns (clst: nat)
    requires AtRest(f)
    modifies f`fptr, f`clust, f`chain, f`addrs, f`secs, f.obj`sclust, f.obj`stat, f.obj`nCont, f.obj`nFrag
    modifies f.obj.fs`disk, f.obj.fs`fat2, f.obj.fs`wflag, f.obj.fs`winsect, f.obj.fs`stale, f.obj.fs.win
    modifies f.obj.fs`view, f.obj.fs`tab, f.obj.fs`bits, f.obj.fs`freeClst, f.obj.fs`lastClst, f.obj.fs`fsiDirty
    ensures f.obj.fs.Valid() && f.fptr == 0
    ensures clst == 0 ==>
              FileOk(f) && f.secs == old(f.secs) && Full(f.obj.fs.g, f.obj.fs.tab, f.obj.fs.bits) && f.obj.objsize == 0
    ensures clst >= 2 && clst != DISK_ERROR ==> Walking(f, 0) && old(f.secs) <= f.secs
  {
    RoomHere(f);
    ChainStart(f);
    f.fptr := 0;
    clst := f.obj.sclust;
    if clst == 0 {
      clst := Stretch(f, 0, 0);
      if clst == 0 {
        f.clust := 0;
        return;
      }
      if clst == 1 || clst == DISK_ERROR { return; }
    }
    f.clust := clst;
    FromTop(f);
  }

  lemma ChainStart(f: File)
    requires f.Sound() && Chained(f)
    ensures f.chain == [] <==> f.obj.sclust == 0
    ensures f.chain != [] ==> f.obj.sclust == f.chain[0] >= 2 && f.chain[0] != DISK_ERROR
  {
    assert OpenLinks();
  }

  /** What a seek leaves: the bytes stay, the file ends no earlier than the pointer. */
  twostate predicate Sought(f: File, ofs: nat)
    reads f`fptr, f`secs, f.obj`objsize, f.obj.fs`tab, f.obj.fs`bits
  {
    && old(f.secs) <= f.secs && f.obj.objsize == Max(old(f.obj.objsize), f.fptr) && f.fptr <= ofs
    && (f.fptr < ofs ==> f.canWrite && old(f.obj.objsize) < ofs && Full(f.obj.fs.g, f.obj.fs.tab, f.obj.fs.bits))
  }

  /** Put the pointer at `ofs`, from the current cluster if it is not ahead, else from the first. */
  method SeekTo(f: File, ofs: nat) returns (res: Status)
    requires AtRest(f) && (f.canWrite || ofs <= f.obj.objsize)
    requires f.obj.fs.g.fsType != ExFat ==> ofs <= 0xFFFF_FFFF
    modifies f`fptr, f`clust, f`modified, f`sect, f`dirty, f`chain, f`addrs, f`secs, f.buf
    modifies f.obj`objsize, f.obj`sclust, f.obj`stat, f.obj`nCont, f.obj`nFrag
    modifies f.obj.fs`disk, f.obj.fs`fat2, f.obj.fs`wflag, f.obj.fs`winsect, f.obj.fs`stale, f.obj.fs.win
    modifies f.obj.fs`view, f.obj.fs`tab, f.obj.fs`bits, f.obj.fs`freeClst, f.obj.fs`lastClst, f.obj.fs`fsiDirty
    ensures f.obj.fs.Valid() && res in {Fine, DiskErr, IntErr}
    ensures res == Fine ==> FileOk(f) && Sought(f, ofs)
    ensures old(f.modified) ==> f.modified
  {
    RoomHere(f);
    if ofs == 0 {
      f.fptr := 0;
      return Fine;
    }
    var clst;
    ghost var k;
    clst, k := Begin(f, ofs);
    if clst == 0 { return Fine; }
    if clst == 1 || clst == DISK_ERROR { return if clst == 1 then IntErr else DiskErr; }
    res := WalkTo(f, ofs - f.fptr, k);
  }

  /** Where to walk from: the current cluster when the target is not before it, else the first. */
  method Begin(f: File, ofs: nat) returns (clst: nat, ghost k: nat)
    requires AtRest(f) && ofs > 0
    modifies f`fptr, f`clust, f`chain, f`addrs, f`secs, f.obj`sclust, f.obj`stat, f.obj`nCont, f.obj`nFrag
    modifies f.obj.fs`disk, f.obj.fs`fat2, f.obj.fs`wflag, f.obj.fs`winsect, f.obj.fs`stale, f.obj.fs.win
    modifies f.obj.fs`view, f.obj.fs`tab, f.obj.fs`bits, f.obj.fs`freeClst, f.obj.fs`lastClst, f.obj.fs`fsiDirty
    ensures f.obj.fs.Valid()
    ensures clst == 0 ==>
              && FileOk(f) && f.secs == old(f.secs) && Full(f.obj.fs.g, f.obj.fs.tab, f.obj.fs.bits)
              && f.obj.objsize == 0 && f.fptr == 0
    ensures clst >= 2 && clst != DISK_ERROR ==>
              Walking(f, k) && old(f.secs) <= f.secs && f.fptr < ofs && f.fptr <= f.obj.objsize
  {
    RoomHere(f);
    var bcs := f.obj.fs.g.ss * f.obj.fs.g.csize;
    var ifptr := f.fptr;
    ClusterIndex(f.obj.fs.g, ofs - 1);
    if ifptr > 0 { ClusterIndex(f.obj.fs.g, ifptr - 1); }
    if ifptr > 0 && (ofs - 1) / bcs >= (ifptr - 1) / bcs {
      k := ClusterOf(f.obj.fs.g, ifptr - 1);
      RoomMono(f.obj.fs.g, k, ClusterOf(f.obj.fs.g, ofs - 1));
      ChainMember(f, k);
      f.fptr := (ifptr - 1) / bcs * bcs;
      FromHere(f, ifptr, k);
      clst := f.clust;
    } else {
      k := 0;
      clst := Rewind(f);
    }
  }

  lemma ChainMember(f: File, k: nat)
    requires f.Sound() && Chained(f) && k < |f.chain|
    ensures 2 <= f.chain[k] < DISK_ERROR
  {
    assert OpenLinks();
  }

  /** Walk on and finish. */
  method WalkTo(f: File, ofs: nat, ghost k0: nat) returns (res: Status)
    requires Walking(f, k0) && ofs > 0 && (f.canWrite || f.fptr + ofs <= f.obj.objsize) && f.fptr <= f.obj.objsize
    requires f.obj.fs.g.fsType != ExFat ==> f.fptr + ofs <= 0xFFFF_FFFF
    modifies f`fptr, f`clust, f`modified, f`sect, f`dirty, f`chain, f`addrs, f`secs, f.buf
    modifies f.obj`objsize, f.obj`sclust, f.obj`stat, f.obj`nCont, f.obj`nFrag
    modifies f.obj.fs`disk, f.obj.fs`fat2, f.obj.fs`wflag, f.obj.fs`winsect, f.obj.fs`stale, f.obj.fs.win
    modifies f.obj.fs`view, f.obj.fs`tab, f.obj.fs`bits, f.obj.fs`freeClst, f.obj.fs`lastClst, f.obj.fs`fsiDirty
    ensures f.obj.fs.Valid() && res in {Fine, DiskErr, IntErr}
    ensures res == Fine ==> FileOk(f) && Sought(f, old(f.fptr) + ofs)
    ensures old(f.modified) ==> f.modified
  {
    var rem, full;
    ghost var k;
    res, rem, full, k := Walk(f, ofs, k0);
    if res != Fine { return; }
    if full {
      StoppedOk(f, k);
      return;
    }
    res := Finish(f, rem, k);
  }

  /** Where a seek to `ofs` goes: FAT files end below 4 GiB, and without write access not past the end. */
  function Target(f: File, ofs: nat): nat
    reads f.obj`objsize
  {
    var o := if f.obj.fs.g.fsType != ExFat && ofs >= 0x1_0000_0000 then 0xFFFF_FFFF else ofs;
    if o > f.obj.objsize && !f.canWrite then f.obj.objsize else o
  }

  /**
   `f_lseek`. When it succeeds the pointer is at the offset asked for, unless a write-mode seek past
   the end found the disk full; the bytes the file had are unchanged, and a seek inside the file adds none.
   */
  method Seek(f: File, ofs: nat) returns (res: Status)
    requires f.err == Fine ==> FileOk(f)
    modifies f`fptr, f`clust, f`modified, f`sect, f`dirty, f`chain, f`addrs, f`secs, f`err, f.buf
    modifies f.obj`objsize, f.obj`sclust, f.obj`stat, f.obj`nCont, f.obj`nFrag
    modifies f.obj.fs`disk, f.obj.fs`fat2, f.obj.fs`wflag, f.obj.fs`winsect, f.obj.fs`stale, f.obj.fs.win
    modifies f.obj.fs`view, f.obj.fs`tab, f.obj.fs`bits, f.obj.fs`freeClst, f.obj.fs`lastClst, f.obj.fs`fsiDirty
    ensures old(f.err) != Fine ==> res == old(f.err) == f.err && Content(f) == old(Content(f)) && f.fptr == old(f.fptr)
    ensures res == Fine ==> FileOk(f) && f.err == Fine
    ensures res == Fine ==>
              && old(Content(f)) <= Content(f)
              && |Content(f)| == Max(|old(Content(f))|, f.fptr)
              && f.fptr <= old(Target(f, ofs))
              && (f.fptr < old(Target(f, ofs)) ==> f.canWrite && |old(Content(f))| < ofs && Full(f.obj.fs.g, f.obj.fs.tab, f.obj.fs.bits))
    ensures res == Fine && ofs <= |old(Content(f))| ==> f.fptr == ofs && Content(f) == old(Content(f))
    ensures old(f.modified) ==> f.modified
  {
    res := f.err;
    if res != Fine { return; }
    assert OpenFile();
    RoomHere(f);
    if f.obj.fs.g.fsType == ExFat {
      res := SettleTail(f);
      if res != Fine { return; }
    }
    ghost var secs, size := f.secs, f.obj.objsize;
    res := SeekTo(f, Target(f, ofs));
    if res != Fine {
      f.err := res;
      return;
    }
    RoomHere(f);
    Grown(secs, size, f.secs, f.obj.objsize);
  }

  /**
   `f_sync` up to the directory entry: the buffer is on the disk, and every link of an exFAT chain is
   on the FAT. The file's bytes and its chain are the same.
   */
  method Sync(f: File) returns (res: Status)
    requires FileOk(f)
    modifies f`dirty, f`modified, f.obj`stat, f.obj`nFrag
    modifies f.obj.fs`disk, f.obj.fs`fat2, f.obj.fs`wflag, f.obj.fs`winsect, f.obj.fs`stale
    modifies f.obj.fs`view, f.obj.fs`tab, f.obj.fs.win
    ensures f.obj.fs.Valid() && res in {Fine, DiskErr}
    ensures res == Fine ==> FileOk(f) && !f.modified
    ensures res == Fine && old(f.modified) ==> !f.dirty
    ensures res == Fine && old(f.modified) && f.obj.fs.g.fsType == ExFat ==> f.obj.nFrag == 0 && f.obj.stat in {0, 2}
  {
    res := Fine;
    if !f.modified { return; }
    assert OpenFile();
    RoomHere(f);
    if f.dirty {
      var ok := f.Flush();
      if !ok { return DiskErr; }
    }
    if f.obj.fs.g.fsType == ExFat { res := SettleLinks(f); }
    if res == Fine { f.modified := false; }
  }

  /** Put all links of the chain on the FAT. */
  method SettleLinks(f: File) returns (res: Status)
    requires FileOk(f) && f.obj.fs.g.fsType == ExFat
    modifies f.obj`stat, f.obj`nFrag, f.obj.fs`disk, f.obj.fs`fat2, f.obj.fs`wflag, f.obj.fs`winsect, f.obj.fs`stale
    modifies f.obj.fs`view, f.obj.fs`tab, f.obj.fs.win
    ensures f.obj.fs.Valid() && res in {Fine, DiskErr}
    ensures res == Fine ==> FileOk(f) && f.obj.nFrag == 0 && f.obj.stat in {0, 2}
  {
    assert OpenFile();
    RoomHere(f);
    res := SettleHead(f);
    if res != Fine { return; }
    res := SettleTail(f);
  }

  /** With all links on the FAT, an exFAT chain that is not one run is a FAT chain. */
  lemma SettledIsChain(f: File)
    requires f.Sound() && Chained(f) && f.obj.fs.g.fsType == ExFat && f.obj.nFrag == 0 && f.obj.stat in {0, 2} && f.chain != []
    ensures f.obj.sclust == f.chain[0]
    ensures f.obj.stat == 0 ==> Chains.IsChain(f.obj.fs.tab, f.chain)
    ensures f.obj.stat == 2 ==> forall i | 0 <= i < |f.chain| :: f.chain[i] == f.obj.sclust + i
  {
    assert OpenLinks();
    if f.obj.stat == 0 {
      assert ExfatLazy.LinksOnFat(f.obj.fs.tab, f.chain, 0, |f.chain| - 1);
    } else {
      forall i | 0 <= i < |f.chain|
        ensures f.chain[i] == f.obj.sclust + i
      {
        ExfatLazy.ConsecutiveAt(f.chain, 0, |f.chain|, 0, i);
      }
    }
  }

  /** With a clean buffer all bytes of the file are on the volume, in the clusters of its chain. */
  lemma CleanOnVolume(f: File)
    requires FileOk(f) && !f.dirty
    ensures InVolume(f.obj.fs.g, f.chain)
    ensures Content(f) == Prefix(Flat(Gather(f.obj.fs.view, Addrs(f.obj.fs.g, f.chain))), f.obj.objsize)
  {
    assert OpenFile() && OpenLinks() && OpenBuffer();
    var secs := Gather(f.obj.fs.view, f.addrs);
    forall q | 0 <= q < |f.addrs|
      ensures f.secs[q] == secs[q]
    {
      assert FileSector(f.obj.fs.g, |f.obj.fs.view|, f.obj.fs.winsect, f.addrs[q]);
    }
    assert f.secs == secs;
  }

  /** `f_open` of an existing file: the pointer is at the top of the bytes on the volume. */
  method Open(obj: ObjectId, canRead: bool, canWrite: bool, ghost chain: seq<nat>) returns (f: File)
    requires obj.fs.Valid() && InVolume(obj.fs.g, chain) && (obj.fs.g.fsType == ExFat ==> obj.nFrag == 0)
    requires ChainSealed(obj.fs.g, obj.Fields(), obj.fs.bits, obj.fs.freeClst, chain, Addrs(obj.fs.g, chain))
    requires AllFileSectors(obj.fs.g, |obj.fs.view|, obj.fs.winsect, Addrs(obj.fs.g, chain))
    requires Fits(obj.fs.g, obj.objsize, |chain|)
    ensures fresh(f) && fresh(f.buf) && f.obj == obj && f.canRead == canRead && f.canWrite == canWrite && f.chain == chain
    ensures FileOk(f) && f.err == Fine && f.fptr == 0
    ensures Content(f) == Prefix(Flat(Gather(obj.fs.view, Addrs(obj.fs.g, chain))), obj.objsize)
  {
    VolumeFacts(obj.fs);
    assert Chains.Distinct(chain) by { assert OpenLinks(); }
    var buf := new byte[obj.fs.g.ss](_ => 0);
    f := new File(obj, buf, canRead, canWrite, chain);
    OpenedBuffer(obj.fs.g, obj.fs.view, obj.fs.winsect, chain, buf[..]);
    assert f.Sound() && Chained(f);
    assert Times(obj.fs.g.ss, Quot(0, obj.fs.g.ss)) == 0;
  }

  /** With nothing buffered the file's sectors are those on the volume. */
  lemma {:induction false} OpenedBuffer(g: Geometry, view: seq<Sector>, winsect: nat, ch: seq<nat>, buf: Sector)
    requires ViewOk(g, view) && InVolume(g, ch) && Chains.Distinct(ch) && |buf| == g.ss
    requires AllFileSectors(g, |view|, winsect, Addrs(g, ch))
    ensures BufferSealed(g, view, winsect, Addrs(g, ch), Gather(view, Addrs(g, ch)), 0, false, buf) == true
  {
    AddrsDistinct(g, ch);
    var addrs := Addrs(g, ch);
    forall q | 0 <= q < |addrs|
      ensures 1 <= addrs[q] < |view|
    {
      assert FileSector(g, |view|, winsect, addrs[q]);
    }
  }

  /** An object with the same fields, but for what is only kept while the links are not on the FAT, has the same chain. */
  lemma ChainForget(g: Geometry, s: ExfatLazy.Lazy, bits: seq<bool>, free: nat, ch: seq<nat>, addrs: seq<nat>)
    requires ChainSealed(g, s, bits, free, ch, addrs) && (g.fsType == ExFat ==> s.nFrag == 0 && s.stat in {0, 2})
    ensures ChainSealed(g, s.(nCont := 0, nFrag := 0), bits, free, ch, addrs) == true
  {
    assert OpenLinks();
  }

  /** A synced file opened again: an object with the same start, size and state has the same bytes. */
  method Reopen(f: File) returns (h: File)
    requires FileOk(f) && !f.dirty && (f.obj.fs.g.fsType == ExFat ==> f.obj.nFrag == 0 && f.obj.stat in {0, 2})
    ensures fresh(h) && FileOk(h) && h.err == Fine && h.fptr == 0 && h.chain == f.chain && Content(h) == Content(f)
  {
    assert OpenFile();
    CleanOnVolume(f);
    assert AllFileSectors(f.obj.fs.g, |f.obj.fs.view|, f.obj.fs.winsect, f.addrs) by { assert OpenBuffer(); }
    assert f.addrs == Addrs(f.obj.fs.g, f.chain) by { assert OpenLinks(); }
    ChainForget(f.obj.fs.g, f.obj.Fields(), f.obj.fs.bits, f.obj.fs.freeClst, f.chain, f.addrs);
    var obj := new ObjectId(f.obj.fs, f.obj.sclust, f.obj.objsize, f.obj.stat);
    h := Open(obj, f.canRead, f.canWrite, f.chain);
  }
}
