/** The cluster chain of an open file, on FAT and exFAT volumes alike. */
module FileChain {
  import opened Arith
  import opened FatCodec
  import opened Volumes
  import opened Chains
  import opened ExfatBitmap
  import opened ExfatLazy
  import Fat = FatAllocator
  import opened Ex = ExfatAllocator
  import opened FileMap
  import opened FileBuffer

  /** `assert OpenLinks();` lets the verifier look at what the chain has to do with the tables. */
  ghost predicate OpenLinks(i: int := 0) {
    true
  }

  /** Clusters that hold part of the allocation bitmap are in use. */
  ghost predicate BitmapHeld(g: Geometry, bits: seq<bool>) {
    forall c | 2 <= c < g.nFatent && c - 2 < |bits| && !bits[c - 2] ::
      ClusterSector(g, c) + g.csize <= g.bitBase || g.bitBase + g.bitSize <= ClusterSector(g, c)
  }

  /** The free-cluster counter is right, or says that it does not know. */
  ghost predicate FreeKnown(g: Geometry, tab: seq<nat>, bits: seq<bool>, free: nat) {
    CountKnown(g, free, if g.fsType == ExFat then |ClearSet(bits)| else |FreeSet(tab)|)
  }

  /** No cluster is free. */
  ghost predicate Full(g: Geometry, tab: seq<nat>, bits: seq<bool>) {
    if g.fsType == ExFat then ClearSet(bits) == {} else FreeSet(tab) == {}
  }

  /** Tables and object fields stand for the chain `ch`, whose sectors are `addrs`. */
  ghost predicate ChainOk(g: Geometry, s: Lazy, bits: seq<bool>, free: nat, ch: seq<nat>, addrs: seq<nat>) {
    && |s.tab| == g.nFatent
    && InVolume(g, ch) && Distinct(ch) && addrs == Addrs(g, ch)
    && FreeKnown(g, s.tab, bits, free)
    && (ch == [] ==> s.sclust == 0)
    && (ch != [] ==> s.sclust == ch[0])
    && if g.fsType == ExFat then
         && |bits| == g.nFatent - 2 && BitmapHeld(g, bits) && InUse(bits, ch)
         && (ch == [] ==> s.nFrag == 0 && s.stat in {0, 2})
         && (ch != [] ==> Represents(s, ch))
       else ch != [] ==> IsChain(s.tab, ch)
  }

  ghost predicate ChainSealed(g: Geometry, s: Lazy, bits: seq<bool>, free: nat, ch: seq<nat>, addrs: seq<nat>) {
    forall i {:trigger OpenLinks(i)} :: OpenLinks(i) ==> ChainOk(g, s, bits, free, ch, addrs)
  }

  /** The file's chain is what the tables and the object say. */
  ghost predicate Chained(f: File)
    reads f`chain, f`addrs, f.obj`sclust, f.obj`stat, f.obj`nCont
    reads f.obj`nFrag, f.obj.fs`tab, f.obj.fs`bits, f.obj.fs`freeClst
  {
    ChainSealed(f.obj.fs.g, f.obj.Fields(), f.obj.fs.bits, f.obj.fs.freeClst, f.chain, f.addrs) == true
  }

  /** Bytes in `n` clusters. */
  function Room(g: Geometry, n: nat): nat {
    Times(g.ss, Times(g.csize, n))
  }

  /** A size that fits `n` clusters; on exFAT it needs all of them. */
  ghost predicate Fits(g: Geometry, size: nat, n: nat) {
    && size <= Room(g, n)
    && (g.fsType == ExFat && n > 0 ==> Room(g, n - 1) < size)
    && (g.fsType != ExFat ==> size <= 0xFFFF_FFFF)
  }

  // ---- the buffer while the window and the tables change ----

  lemma SectorMoved(g: Geometry, size: nat, w: nat, w': nat, s: nat)
    requires FileSector(g, size, w, s) && size <= NO_SECTOR && (w' == w || IsMeta(g, w'))
    requires g.fatBase + g.fSize <= g.database
    ensures FileSector(g, size, w', s)
  {
  }

  /** The buffer is untouched by edits of the FAT and the bitmap through the window. */
  lemma BufferMoved(g: Geometry, v: seq<Sector>, w: nat, v': seq<Sector>, w': nat,
                    addrs: seq<nat>, secs: seq<Sector>, sect: nat, dirty: bool, buf: Sector)
    requires BufferSealed(g, v, w, addrs, secs, sect, dirty, buf)
    requires SameData(g, v, v') && |v| <= NO_SECTOR && (w' == w || IsMeta(g, w')) && g.fatBase + g.fSize <= g.database
    ensures BufferSealed(g, v', w', addrs, secs, sect, dirty, buf) == true
  {
    assert OpenBuffer();
    forall q | 0 <= q < |addrs|
      ensures FileSector(g, |v|, w', addrs[q]) && !IsMeta(g, addrs[q]) && v'[addrs[q]] == v[addrs[q]]
    {
      SectorMoved(g, |v|, w, w', addrs[q]);
    }
  }

  /** A cluster whose sectors can become the file's. */
  ghost predicate FreshCluster(g: Geometry, size: nat, w: nat, addrs: seq<nat>, c: nat)
    requires c >= 2
  {
    && AllFileSectors(g, size, w, SectorRun(ClusterSector(g, c), g.csize))
    && forall q | 0 <= q < |addrs| :: !(ClusterSector(g, c) <= addrs[q] < ClusterSector(g, c) + g.csize)
  }

  /** The file gets the sectors of one more cluster. */
  lemma BufferGrown(g: Geometry, v: seq<Sector>, w: nat,
                    addrs: seq<nat>, secs: seq<Sector>, sect: nat, dirty: bool, buf: Sector, c: nat)
    requires BufferSealed(g, v, w, addrs, secs, sect, dirty, buf) && AllSized(v, g.ss)
    requires c >= 2 && FreshCluster(g, |v|, w, addrs, c)
    ensures var run := SectorRun(ClusterSector(g, c), g.csize);
            BufferSealed(g, v, w, addrs + run, secs + Gather(v, run), sect, dirty, buf) == true
  {
    assert OpenBuffer();
    var run := SectorRun(ClusterSector(g, c), g.csize);
    var more := Gather(v, run);
    var a, s := addrs + run, secs + more;
    forall q | 0 <= q < |a|
      ensures FileSector(g, |v|, w, a[q])
      ensures s[q] == (if a[q] == sect then buf else v[a[q]]) && |s[q]| == g.ss
    {
      if q >= |addrs| {
        assert FileSector(g, |v|, w, run[q - |addrs|]);
      }
    }
  }

  /** A cluster outside the chain is fresh if it is not part of the bitmap. */
  lemma OutsideFresh(g: Geometry, v: seq<Sector>, w: nat, ch: seq<nat>, c: nat)
    requires ViewOk(g, v) && |v| <= NO_SECTOR && IsMeta(g, w)
    requires InVolume(g, ch) && 2 <= c < g.nFatent && c !in ch
    requires g.fsType == ExFat ==>
              ClusterSector(g, c) + g.csize <= g.bitBase || g.bitBase + g.bitSize <= ClusterSector(g, c)
    ensures FreshCluster(g, |v|, w, Addrs(g, ch), c)
  {
    TimesMono(g.csize, c - 2, g.nFatent - 2);
    var a := Addrs(g, ch);
    forall q | 0 <= q < |a|
      ensures !(ClusterSector(g, c) <= a[q] < ClusterSector(g, c) + g.csize)
    {
      AddrsSplit(g, ch, q);
      ClustersApart(g, ch[Quot(q, g.csize)], c);
    }
  }

  // ---- following and stretching the chain ----

  lemma {:induction false} Pigeonhole(a: seq<nat>, n: nat)
    requires Distinct(a) && forall i | 0 <= i < |a| :: a[i] < n
    ensures |a| <= n
  {
    if |a| > 0 {
      assert a[0] < n;
      if i :| 0 <= i < |a| && a[i] == n - 1 {
        Pigeonhole(a[..i] + a[i + 1..], n - 1);
      } else {
        Pigeonhole(a, n - 1);
      }
    }
  }

  /** The size gives the index of the last cluster. */
  lemma {:induction false} LastIs(g: Geometry, size: nat, n: nat)
    requires g.ss > 0 && g.csize > 0 && n > 0 && Room(g, n - 1) < size <= Room(g, n)
    requires Times(g.csize, n) < 0x1_0000_0000
    ensures LastIndex(g, size) == n - 1
  {
    var q := Quot(size - 1, g.ss);
    QuotTimes(size - 1, g.ss);
    var lo, hi := Times(g.csize, n - 1), Times(g.csize, n);
    if q < lo { TimesMono(g.ss, q, lo); }
    if q >= hi { TimesMono(g.ss, hi, q); }
    QuotUnique(q, g.csize, n - 1);
  }

  lemma VolumeFacts(fs: Volume)
    requires fs.Valid()
    ensures ViewOk(fs.g, fs.view) && |fs.view| <= NO_SECTOR
  {
    assert Open() && OpenTables();
  }

  /** The number of the last cluster as `get_fat` computes it. */
  ghost function LastOf(g: Geometry, size: nat): nat
    requires g.ss > 0 && g.csize > 0
  {
    if size > 0 then LastIndex(g, size) else 0
  }

  lemma CoversIt(f: File)
    requires f.Sound() && Chained(f) && Fits(f.obj.fs.g, f.obj.objsize, |f.chain|)
    requires f.obj.fs.g.fsType == ExFat && f.chain != []
    ensures f.obj.fs.g.ss > 0 && f.obj.fs.g.csize > 0
    ensures Covers(f.obj.Fields(), f.obj.objsize > 0, LastOf(f.obj.fs.g, f.obj.objsize), f.chain)
  {
    VolumeFacts(f.obj.fs);
    assert OpenLinks() && OpenBuffer();
    AddrsLength(f.obj.fs.g, f.chain);
    forall q | 0 <= q < |f.addrs|
      ensures f.addrs[q] < |f.obj.fs.view|
    {
      assert FileSector(f.obj.fs.g, |f.obj.fs.view|, f.obj.fs.winsect, f.addrs[q]);
    }
    Pigeonhole(f.addrs, |f.obj.fs.view|);
    LastIs(f.obj.fs.g, f.obj.objsize, |f.chain|);
  }

  /** `get_fat` on a cluster of the file's chain. */
  method Follow(f: File, clst: nat, ghost k: nat) returns (val: nat)
    requires f.Sound() && Chained(f) && Fits(f.obj.fs.g, f.obj.objsize, |f.chain|)
    requires k < |f.chain| && f.chain[k] == clst
    requires f.obj.fs.g.fsType == ExFat ==> f.obj.nFrag == 0 || k + 1 == |f.chain|
    modifies f.obj.fs`disk, f.obj.fs`fat2, f.obj.fs`wflag, f.obj.fs`winsect, f.obj.fs`stale, f.obj.fs.win
    ensures f.Sound() && Chained(f)
    ensures val == DISK_ERROR || if k + 1 < |f.chain| then val == f.chain[k + 1] else val >= f.obj.fs.g.nFatent
  {
    var fs := f.obj.fs;
    VolumeFacts(fs);
    ghost var w, t := fs.winsect, TablesOf(fs);
    if fs.g.fsType == ExFat {
      CoversIt(f);
      assert OpenLinks();
      NextOnChain(f.obj.Fields(), f.obj.objsize > 0, LastOf(fs.g, f.obj.objsize), f.chain, k);
      val := Ex.GetFat(f.obj, clst);
    } else {
      assert OpenLinks();
      Chains.NextOf(fs.tab, f.chain, k);
      val := Fat.GetFat(fs, clst);
    }
    OwnMoved(fs.g, t, fs.winsect, f.chain);
    ApartMoved(fs.g, f.mark, fs.view, t, fs.view, TablesOf(fs), f.chain, f.addrs);
    BufferMoved(fs.g, fs.view, w, fs.view, fs.winsect, f.addrs, f.secs, f.sect, f.dirty, f.buf[..]);
  }

  lemma {:induction false} AddrsSnoc(g: Geometry, ch: seq<nat>, c: nat)
    requires InVolume(g, ch) && c >= 2
    ensures Addrs(g, ch + [c]) == Addrs(g, ch) + SectorRun(ClusterSector(g, c), g.csize)
  {
    assert (ch + [c])[..|ch|] == ch;
  }

  /** Where `create_chain` is called: on no chain, or at index `k` of the file's chain. */
  ghost predicate At(f: File, clst: nat, k: nat)
    reads f`chain, f.obj`nFrag
  {
    if clst == 0 then f.chain == []
    else k < |f.chain| && f.chain[k] == clst && (f.obj.fs.g.fsType == ExFat ==> f.obj.nFrag == 0 || k + 1 == |f.chain|)
  }

  /** `create_chain` gives `ncl` as the new tail of the chain `ch`. */
  ghost predicate NewTail(g: Geometry, s: Lazy, t: Tables, t': Tables, free: nat, ch: seq<nat>, clst: nat, ncl: nat) {
    && 2 <= ncl < g.nFatent && ncl !in ch && InVolume(g, ch) && IsMeta(g, t'.winsect)
    && (g.fsType == ExFat ==> ClusterSector(g, ncl) + g.csize <= g.bitBase || g.bitBase + g.bitSize <= ClusterSector(g, ncl))
    && ChainSealed(g, s.(sclust := if clst == 0 then ncl else s.sclust), t'.bits, free, ch + [ncl], Addrs(g, ch + [ncl]))
    && OwnSealed(g, t, t', ch, ch + [ncl])
  }

  /** `create_chain` leaves the chain as it is. */
  ghost predicate SameChain(g: Geometry, s: Lazy, s': Lazy, t: Tables, t': Tables, free: nat, ch: seq<nat>, addrs: seq<nat>) {
    && ChainSealed(g, s', t'.bits, free, ch, addrs) && s'.nFrag == s.nFrag
    && OwnSealed(g, t, t', ch, ch)
  }

  /** What `create_chain` gives at index `k` of the chain: nothing, the next cluster, or a new tail. */
  ghost predicate Given(g: Geometry, s: Lazy, s': Lazy, t: Tables, t': Tables, free: nat, ch: seq<nat>, addrs: seq<nat>,
                        clst: nat, k: nat, ncl: nat) {
    if ncl == 1 || ncl == DISK_ERROR then true
    else if ncl == 0 then
      SameChain(g, s, s', t, t', free, ch, addrs) && (clst == 0 || k + 1 == |ch|) && Full(g, t'.tab, t'.bits)
    else if clst != 0 && k + 1 < |ch| then
      SameChain(g, s, s', t, t', free, ch, addrs) && ncl == ch[k + 1]
    else
      NewTail(g, s', t, t', free, ch, clst, ncl)
  }

  /** The chain does not depend on the counter. */
  lemma Recounted(g: Geometry, s: Lazy, bits: seq<bool>, free: nat, free': nat, ch: seq<nat>, addrs: seq<nat>)
    requires ChainSealed(g, s, bits, free, ch, addrs) && FreeKnown(g, s.tab, bits, free')
    ensures ChainSealed(g, s, bits, free', ch, addrs) == true
  {
    assert OpenLinks();
  }

  lemma {:induction false} StretchedOk(g: Geometry, s: Lazy, bits: seq<bool>, free: nat, free': nat, ch: seq<nat>,
                                       addrs: seq<nat>, c: nat)
    requires g.fsType != ExFat && ChainSealed(g, s, bits, free, ch, addrs) && c in FreeSet(s.tab)
    requires |s.tab| == g.nFatent <= MaxEntries(g.fsType)
    requires forall i | 0 <= i < |ch| :: 2 <= ch[i] < |s.tab|
    requires var clst := if ch == [] then 0 else ch[|ch| - 1];
             FreeKnown(g, Stretched(s.tab, clst, c, Fat.EndMark(g)), bits, free')
    ensures c !in ch && InVolume(g, ch)
    ensures var clst := if ch == [] then 0 else ch[|ch| - 1];
            ChainSealed(g, s.(tab := Stretched(s.tab, clst, c, Fat.EndMark(g)), sclust := if ch == [] then c else s.sclust),
                        bits, free', ch + [c], Addrs(g, ch + [c])) == true
  {
    assert OpenLinks();
    Fat.EndMarkEnds(g);
    if ch != [] {
      StretchedChain(s.tab, ch, c, Fat.EndMark(g));
    }
    forall i | 0 <= i < |ch|
      ensures ch[i] != c
    {
      ChainUsed(s.tab, ch, i);
    }
  }

  /** What the tables say at index `k` of the file's chain on a FAT volume. */
  lemma FatAt(f: File, clst: nat, k: nat)
    requires f.Sound() && Chained(f) && At(f, clst, k) && f.obj.fs.g.fsType != ExFat
    ensures InVolume(f.obj.fs.g, f.chain) && |f.obj.fs.tab| == f.obj.fs.g.nFatent <= MaxEntries(f.obj.fs.g.fsType)
    ensures FreeKnown(f.obj.fs.g, f.obj.fs.tab, f.obj.fs.bits, f.obj.fs.freeClst)
    ensures Fat.AtTail(f.obj.fs.tab, clst) <==> clst == 0 || k + 1 == |f.chain|
    ensures clst != 0 ==> 2 <= clst < f.obj.fs.g.nFatent && (k + 1 < |f.chain| ==> f.obj.fs.tab[clst] == f.chain[k + 1])
  {
    assert OpenLinks();
    if clst != 0 { Chains.NextOf(f.obj.fs.tab, f.chain, k); }
  }

  lemma OwnFat(g: Geometry, t: Tables, t': Tables, ch: seq<nat>, clst: nat, c: nat)
    requires g.fsType != ExFat && c in FreeSet(t.tab) && (clst == 0 || (2 <= clst < |t.tab| && clst in ch))
    requires t'.tab == Stretched(t.tab, clst, c, Fat.EndMark(g)) && t'.bits == t.bits
    requires t'.winsect == t.winsect || IsMeta(g, t'.winsect)
    ensures OwnSealed(g, t, t', ch, ch + [c]) == true
  {
    assert forall x | x in ch + [c] :: x in ch || x == c;
    assert c in ch + [c] && forall x | x in ch :: x in ch + [c];
  }

  /** `create_chain` on a FAT volume, in terms of the file's chain. */
  lemma FatGiven(g: Geometry, s: Lazy, t: Tables, t': Tables, free: nat, free': nat, ch: seq<nat>, addrs: seq<nat>,
                 clst: nat, k: nat, ncl: nat)
    requires g.fsType != ExFat && ChainSealed(g, s, t.bits, free, ch, addrs) && s.tab == t.tab && t'.bits == t.bits
    requires InVolume(g, ch) && |t.tab| == g.nFatent <= MaxEntries(g.fsType) && FreeKnown(g, t'.tab, t.bits, free')
    requires if clst == 0 then ch == [] else k < |ch| && ch[k] == clst
    requires Fat.AtTail(t.tab, clst) <==> clst == 0 || k + 1 == |ch|
    requires clst != 0 && k + 1 < |ch| ==> t.tab[clst] == ch[k + 1]
    requires t'.winsect == t.winsect || IsMeta(g, t'.winsect)
    requires ncl == 0 || (ncl >= 2 && ncl != DISK_ERROR)
    requires ncl == 0 ==> t'.tab == t.tab && Fat.AtTail(t.tab, clst) && FreeSet(t.tab) == {}
    requires ncl != 0 && !Fat.AtTail(t.tab, clst) ==> t'.tab == t.tab && ncl == t.tab[clst]
    requires ncl != 0 && Fat.AtTail(t.tab, clst) ==>
               && ncl in FreeSet(t.tab) && t'.tab == Stretched(t.tab, clst, ncl, Fat.EndMark(g)) && IsMeta(g, t'.winsect)
    ensures Given(g, s, s.(tab := t'.tab), t, t', free', ch, addrs, clst, k, ncl) == true
  {
    if ncl != 0 && Fat.AtTail(t.tab, clst) {
      StretchedOk(g, s, t.bits, free, free', ch, addrs, ncl);
      OwnFat(g, t, t', ch, clst, ncl);
    } else {
      Recounted(g, s, t.bits, free, free', ch, addrs);
      OwnMoved(g, t, t'.winsect, ch);
    }
  }

  method StretchFat(f: File, clst: nat, ghost k: nat) returns (ncl: nat)
    requires f.Sound() && Chained(f) && At(f, clst, k) && f.obj.fs.g.fsType != ExFat
    modifies f.obj.fs`disk, f.obj.fs`fat2, f.obj.fs`wflag, f.obj.fs`winsect, f.obj.fs`stale, f.obj.fs.win
    modifies f.obj.fs`view, f.obj.fs`tab, f.obj.fs`freeClst, f.obj.fs`lastClst, f.obj.fs`fsiDirty
    ensures f.obj.fs.Valid() && SameData(f.obj.fs.g, old(f.obj.fs.view), f.obj.fs.view)
    ensures f.obj.fs.winsect == old(f.obj.fs.winsect) || IsMeta(f.obj.fs.g, f.obj.fs.winsect)
    ensures Given(f.obj.fs.g, old(f.obj.Fields()), f.obj.Fields(), old(TablesOf(f.obj.fs)), TablesOf(f.obj.fs), f.obj.fs.freeClst,
                  f.chain, f.addrs, clst, k, ncl) == true
  {
    var fs := f.obj.fs;
    FatAt(f, clst, k);
    ghost var s, free, v, t := f.obj.Fields(), fs.freeClst, fs.view, TablesOf(fs);
    ncl := Fat.CreateChain(fs, clst);
    FatOnlySame(fs.g, v, fs.view);
    if ncl == 1 || ncl == DISK_ERROR { return; }
    FatGiven(fs.g, s, t, TablesOf(fs), free, fs.freeClst, f.chain, f.addrs, clst, k, ncl);
  }

  lemma OwnEx(g: Geometry, t: Tables, t': Tables, ch: seq<nat>, c: nat)
    requires g.fsType == ExFat && c >= 2 && c - 2 in ClearSet(t.bits)
    requires KeepsOthers(t.tab, t'.tab, ch) && t'.bits == t.bits[c - 2 := true]
    requires t'.winsect == t.winsect || IsMeta(g, t'.winsect)
    ensures OwnSealed(g, t, t', ch, ch + [c]) == true
  {
    assert OpenOthers();
    assert forall x | x in ch + [c] :: x in ch || x == c;
    assert c in ch + [c] && forall x | x in ch :: x in ch + [c];
  }

  lemma HeldStays(g: Geometry, bits: seq<bool>, b: nat)
    requires BitmapHeld(g, bits) && b < |bits|
    ensures BitmapHeld(g, bits[b := true])
  {
  }

  lemma {:induction false} StretchedExIs(g: Geometry, s: Lazy, bits: seq<bool>, free: nat, s': Lazy, free': nat,
                                         ch: seq<nat>, addrs: seq<nat>, c: nat)
    requires g.fsType == ExFat && ChainOk(g, s, bits, free, ch, addrs) && c >= 2 && c - 2 in ClearSet(bits)
    requires |s'.tab| == g.nFatent && Represents(s', ch + [c]) && InUse(bits[c - 2 := true], ch + [c])
    requires FreeKnown(g, s'.tab, bits[c - 2 := true], free')
    ensures 2 <= c < g.nFatent && c !in ch
    ensures ClusterSector(g, c) + g.csize <= g.bitBase || g.bitBase + g.bitSize <= ClusterSector(g, c)
    ensures ChainOk(g, s', bits[c - 2 := true], free', ch + [c], Addrs(g, ch + [c]))
  {
    HeldStays(g, bits, c - 2);
    InUseAppend(bits, ch, c);
  }

  lemma {:induction false} StretchedExOk(g: Geometry, s: Lazy, bits: seq<bool>, free: nat, s': Lazy, free': nat,
                                         ch: seq<nat>, addrs: seq<nat>, c: nat)
    requires g.fsType == ExFat && ChainSealed(g, s, bits, free, ch, addrs) && c >= 2 && c - 2 in ClearSet(bits)
    requires |s'.tab| == g.nFatent && Represents(s', ch + [c]) && InUse(bits[c - 2 := true], ch + [c])
    requires FreeKnown(g, s'.tab, bits[c - 2 := true], free')
    ensures 2 <= c < g.nFatent && c !in ch && InVolume(g, ch)
    ensures ClusterSector(g, c) + g.csize <= g.bitBase || g.bitBase + g.bitSize <= ClusterSector(g, c)
    ensures ChainSealed(g, s', bits[c - 2 := true], free', ch + [c], Addrs(g, ch + [c])) == true
  {
    assert OpenLinks();
    StretchedExIs(g, s, bits, free, s', free', ch, addrs, c);
  }

  /** The file's chain is ready for `create_chain` on an exFAT volume. */
  lemma ExReady(f: File, clst: nat, k: nat)
    requires f.Sound() && Chained(f) && At(f, clst, k) && f.obj.fs.g.fsType == ExFat
    requires Fits(f.obj.fs.g, f.obj.objsize, |f.chain|)
    ensures f.obj.fs.g.ss > 0 && f.obj.fs.g.csize > 0 && |f.obj.fs.tab| == f.obj.fs.g.nFatent
    ensures Ex.Ready(f.obj, f.chain, clst, k) == true
    ensures FreeKnown(f.obj.fs.g, f.obj.fs.tab, f.obj.fs.bits, f.obj.fs.freeClst)
  {
    VolumeFacts(f.obj.fs);
    if clst != 0 { CoversIt(f); }
    assert OpenLinks();
  }

  /** `create_chain` on an exFAT volume, in terms of the file's chain. */
  lemma ExGiven(g: Geometry, s: Lazy, s': Lazy, t: Tables, t': Tables, free: nat, free': nat, ch: seq<nat>, addrs: seq<nat>,
                clst: nat, k: nat, ncl: nat)
    requires g.fsType == ExFat && ChainSealed(g, s, t.bits, free, ch, addrs) && s.tab == t.tab && s'.tab == t'.tab
    requires |t'.tab| == g.nFatent && FreeKnown(g, t'.tab, t'.bits, free') && ncl != 1
    requires if clst == 0 then ch == [] else k < |ch|
    requires t'.winsect == t.winsect || IsMeta(g, t'.winsect)
    requires ncl == 0 ==> (clst == 0 || k + 1 == |ch|) && ClearSet(t'.bits) == {} && t'.bits == t.bits && s' == s
    requires ncl != 0 && clst != 0 && k + 1 < |ch| ==> ncl == ch[k + 1] && t'.bits == t.bits && s' == s
    requires ncl != 0 && (clst == 0 || k + 1 == |ch|) ==>
               && ncl - 2 in ClearSet(t.bits) && t'.bits == t.bits[ncl - 2 := true] && IsMeta(g, t'.winsect)
               && Represents(s'.(sclust := if clst == 0 then ncl else s'.sclust), ch + [ncl])
               && InUse(t'.bits, ch + [ncl]) && KeepsOthers(t.tab, t'.tab, ch)
    ensures Given(g, s, s', t, t', free', ch, addrs, clst, k, ncl) == true
  {
    if ncl != 0 && (clst == 0 || k + 1 == |ch|) {
      StretchedExOk(g, s, t.bits, free, s'.(sclust := if clst == 0 then ncl else s'.sclust), free', ch, addrs, ncl);
      OwnEx(g, t, t', ch, ncl);
    } else {
      Recounted(g, s, t.bits, free, free', ch, addrs);
      OwnMoved(g, t, t'.winsect, ch);
    }
  }

  method StretchEx(f: File, clst: nat, ghost k: nat) returns (ncl: nat)
    requires f.Sound() && Chained(f) && At(f, clst, k) && f.obj.fs.g.fsType == ExFat
    requires Fits(f.obj.fs.g, f.obj.objsize, |f.chain|)
    modifies f.obj`stat, f.obj`nCont, f.obj`nFrag
    modifies f.obj.fs`disk, f.obj.fs`fat2, f.obj.fs`wflag, f.obj.fs`winsect, f.obj.fs`stale, f.obj.fs.win
    modifies f.obj.fs`view, f.obj.fs`tab, f.obj.fs`bits, f.obj.fs`freeClst, f.obj.fs`lastClst, f.obj.fs`fsiDirty
    ensures f.obj.fs.Valid() && SameData(f.obj.fs.g, old(f.obj.fs.view), f.obj.fs.view)
    ensures f.obj.fs.winsect == old(f.obj.fs.winsect) || IsMeta(f.obj.fs.g, f.obj.fs.winsect)
    ensures Given(f.obj.fs.g, old(f.obj.Fields()), f.obj.Fields(), old(TablesOf(f.obj.fs)), TablesOf(f.obj.fs), f.obj.fs.freeClst,
                  f.chain, f.addrs, clst, k, ncl) == true
  {
    var fs := f.obj.fs;
    ExReady(f, clst, k);
    ghost var s, free, t := f.obj.Fields(), fs.freeClst, TablesOf(fs);
    ncl := Ex.CreateChain(f.obj, clst, f.chain, k);
    if ncl == DISK_ERROR { return; }
    VolumeFacts(fs);
    ExGiven(fs.g, s, f.obj.Fields(), t, TablesOf(fs), free, fs.freeClst, f.chain, f.addrs, clst, k, ncl);
  }

  /** `create_chain`, on the volume's own kind of tables. */
  method StretchTables(f: File, clst: nat, ghost k: nat) returns (ncl: nat)
    requires f.Sound() && Chained(f) && At(f, clst, k) && Fits(f.obj.fs.g, f.obj.objsize, |f.chain|)
    modifies f.obj`stat, f.obj`nCont, f.obj`nFrag
    modifies f.obj.fs`disk, f.obj.fs`fat2, f.obj.fs`wflag, f.obj.fs`winsect, f.obj.fs`stale, f.obj.fs.win
    modifies f.obj.fs`view, f.obj.fs`tab, f.obj.fs`bits, f.obj.fs`freeClst, f.obj.fs`lastClst, f.obj.fs`fsiDirty
    ensures f.obj.fs.Valid() && SameData(f.obj.fs.g, old(f.obj.fs.view), f.obj.fs.view)
    ensures f.obj.fs.winsect == old(f.obj.fs.winsect) || IsMeta(f.obj.fs.g, f.obj.fs.winsect)
    ensures Given(f.obj.fs.g, old(f.obj.Fields()), f.obj.Fields(), old(TablesOf(f.obj.fs)), TablesOf(f.obj.fs), f.obj.fs.freeClst,
                  f.chain, f.addrs, clst, k, ncl) == true
  {
    if f.obj.fs.g.fsType == ExFat { ncl := StretchEx(f, clst, k); } else { ncl := StretchFat(f, clst, k); }
  }

  /** Count the sectors of cluster `c` among the file's; the tables already have it. */
  ghost method Append(f: File, c: nat)
    requires f.buf != f.obj.fs.win && f.obj.fs.Valid() && |f.secs| == |f.addrs|
    requires BufferSealed(f.obj.fs.g, f.obj.fs.view, f.obj.fs.winsect, f.addrs, f.secs, f.sect, f.dirty, f.buf[..])
    requires InVolume(f.obj.fs.g, f.chain) && f.addrs == Addrs(f.obj.fs.g, f.chain)
    requires 2 <= c < f.obj.fs.g.nFatent && c !in f.chain && IsMeta(f.obj.fs.g, f.obj.fs.winsect)
    requires f.obj.fs.g.fsType == ExFat ==>
               || ClusterSector(f.obj.fs.g, c) + f.obj.fs.g.csize <= f.obj.fs.g.bitBase
               || f.obj.fs.g.bitBase + f.obj.fs.g.bitSize <= ClusterSector(f.obj.fs.g, c)
    requires Apart(f.obj.fs.g, f.mark, f.obj.fs.view, TablesOf(f.obj.fs), f.chain + [c],
                   f.addrs + SectorRun(ClusterSector(f.obj.fs.g, c), f.obj.fs.g.csize))
    modifies f`chain, f`addrs, f`secs
    ensures f.Sound() && f.chain == old(f.chain) + [c] && old(f.secs) <= f.secs
    ensures InVolume(f.obj.fs.g, f.chain) && f.addrs == Addrs(f.obj.fs.g, f.chain)
  {
    var fs := f.obj.fs;
    VolumeFacts(fs);
    OutsideFresh(fs.g, fs.view, fs.winsect, f.chain, c);
    BufferGrown(fs.g, fs.view, fs.winsect, f.addrs, f.secs, f.sect, f.dirty, f.buf[..], c);
    AddrsSnoc(fs.g, f.chain, c);
    var run := SectorRun(ClusterSector(fs.g, c), fs.g.csize);
    f.chain := f.chain + [c];
    f.addrs := f.addrs + run;
    f.secs := f.secs + Gather(fs.view, run);
  }

  /** The file after `create_chain` changed the tables from `t`, the view from `v` and the fields from `s`. */
  ghost method Record(f: File, s: Lazy, v: seq<Sector>, t: Tables, clst: nat, k: nat, ncl: nat)
    requires f.buf != f.obj.fs.win && f.obj.fs.Valid() && |f.secs| == |f.addrs|
    requires Apart(f.obj.fs.g, f.mark, v, t, f.chain, f.addrs)
    requires BufferSealed(f.obj.fs.g, v, t.winsect, f.addrs, f.secs, f.sect, f.dirty, f.buf[..])
    requires SameData(f.obj.fs.g, v, f.obj.fs.view) && (f.obj.fs.winsect == t.winsect || IsMeta(f.obj.fs.g, f.obj.fs.winsect))
    requires InVolume(f.obj.fs.g, f.chain) && f.addrs == Addrs(f.obj.fs.g, f.chain) && ncl != 1 && ncl != DISK_ERROR
    requires Given(f.obj.fs.g, s, f.obj.Fields(), t, TablesOf(f.obj.fs), f.obj.fs.freeClst, f.chain, f.addrs, clst, k, ncl)
    modifies f`chain, f`addrs, f`secs
    ensures f.Sound() && old(f.secs) <= f.secs
    ensures if ncl == 0 || (clst != 0 && k + 1 < |old(f.chain)|) then f.chain == old(f.chain) && f.secs == old(f.secs)
            else f.chain == old(f.chain) + [ncl]
    ensures ChainSealed(f.obj.fs.g, f.obj.Fields().(sclust := if clst == 0 && ncl != 0 then ncl else f.obj.sclust), f.obj.fs.bits,
                        f.obj.fs.freeClst, f.chain, f.addrs) == true
  {
    var fs := f.obj.fs;
    VolumeFacts(fs);
    BufferMoved(fs.g, v, t.winsect, fs.view, fs.winsect, f.addrs, f.secs, f.sect, f.dirty, f.buf[..]);
    if ncl == 0 || (clst != 0 && k + 1 < |f.chain|) {
      ApartMoved(fs.g, f.mark, v, t, fs.view, TablesOf(fs), f.chain, f.addrs);
    } else {
      ApartGrown(fs.g, f.mark, v, t, fs.view, TablesOf(fs), f.chain, ncl, f.addrs,
                 SectorRun(ClusterSector(fs.g, ncl), fs.g.csize));
      Append(f, ncl);
    }
  }

  /** `create_chain` on the file's chain: the next cluster, or a new one at the end. */
  method Stretch(f: File, clst: nat, ghost k: nat) returns (ncl: nat)
    requires f.Sound() && Chained(f) && At(f, clst, k) && Fits(f.obj.fs.g, f.obj.objsize, |f.chain|)
    modifies f`chain, f`addrs, f`secs, f.obj`sclust, f.obj`stat, f.obj`nCont, f.obj`nFrag
    modifies f.obj.fs`disk, f.obj.fs`fat2, f.obj.fs`wflag, f.obj.fs`winsect, f.obj.fs`stale, f.obj.fs.win
    modifies f.obj.fs`view, f.obj.fs`tab, f.obj.fs`bits, f.obj.fs`freeClst, f.obj.fs`lastClst, f.obj.fs`fsiDirty
    ensures f.obj.fs.Valid()
    ensures ncl >= 2 && ncl != DISK_ERROR ==> f.Sound() && Chained(f)
    ensures ncl == 0 ==>
              && f.Sound() && Chained(f) && f.chain == old(f.chain) && f.secs == old(f.secs)
              && (clst == 0 || k + 1 == |f.chain|) && Full(f.obj.fs.g, f.obj.fs.tab, f.obj.fs.bits)
              && f.obj.nFrag == old(f.obj.nFrag)
    ensures ncl >= 2 && ncl != DISK_ERROR && clst != 0 && k + 1 < |old(f.chain)| ==>
              f.chain == old(f.chain) && f.secs == old(f.secs) && ncl == f.chain[k + 1] && f.obj.nFrag == old(f.obj.nFrag)
    ensures ncl >= 2 && ncl != DISK_ERROR && (clst == 0 || k + 1 == |old(f.chain)|) ==>
              f.chain == old(f.chain) + [ncl] && old(f.secs) <= f.secs && 2 <= ncl < f.obj.fs.g.nFatent
  {
    ghost var s, v, t := f.obj.Fields(), f.obj.fs.view, TablesOf(f.obj.fs);
    assert InVolume(f.obj.fs.g, f.chain) && f.addrs == Addrs(f.obj.fs.g, f.chain) by { assert OpenLinks(); }
    ncl := StretchTables(f, clst, k);
    if ncl == 1 || ncl == DISK_ERROR { return; }
    Record(f, s, v, t, clst, k, ncl);
    if clst == 0 && ncl != 0 { f.obj.sclust := ncl; }
  }

  // ---- writing out the lazy links ----

  lemma {:induction false} SettledTail(g: Geometry, s: Lazy, bits: seq<bool>, free: nat, ch: seq<nat>, addrs: seq<nat>)
    requires g.fsType == ExFat && ChainSealed(g, s, bits, free, ch, addrs) && |s.tab| == g.nFatent <= EOC
    ensures s.nFrag > 0 ==> ch != []
    ensures ch != [] ==> s.nFrag < ch[|ch| - 1] < g.nFatent
    ensures ch != [] ==> ChainSealed(g, FillLast(s, ch[|ch| - 1], EOC), bits, free, ch, addrs) == true
    ensures ch != [] ==> KeepsOthers(s.tab, FillLast(s, ch[|ch| - 1], EOC).tab, ch) == true
  {
    assert OpenLinks();
    if ch != [] {
      GrowStrict(s, ch);
      FillLastRepresents(s, ch);
      FillLastKeeps(s, ch, EOC);
    }
  }

  /** Edits of the FAT at entries of the chain. */
  lemma OwnLinks(g: Geometry, t: Tables, t': Tables, ch: seq<nat>)
    requires KeepsOthers(t.tab, t'.tab, ch) && t'.bits == t.bits && (t'.winsect == t.winsect || IsMeta(g, t'.winsect))
    ensures OwnSealed(g, t, t', ch, ch) == true
  {
    assert OpenOthers();
  }

  /** `fill_last_frag` on the file: the last fragment gets its links on the FAT, the chain stays. */
  method SettleTail(f: File) returns (res: Status)
    requires f.Sound() && Chained(f) && f.obj.fs.g.fsType == ExFat
    requires f.obj.nFrag > 0 ==> f.chain != [] ==> f.clust == f.chain[|f.chain| - 1]
    modifies f.obj`nFrag, f.obj.fs`disk, f.obj.fs`fat2, f.obj.fs`wflag, f.obj.fs`winsect, f.obj.fs`stale
    modifies f.obj.fs`view, f.obj.fs`tab, f.obj.fs.win
    ensures f.obj.fs.Valid() && res in {Fine, DiskErr}
    ensures res == Fine ==> f.Sound() && Chained(f) && f.obj.nFrag == 0
  {
    var fs := f.obj.fs;
    VolumeFacts(fs);
    ghost var s := f.obj.Fields();
    SettledTail(fs.g, s, fs.bits, fs.freeClst, f.chain, f.addrs);
    ghost var v, w, t := fs.view, fs.winsect, TablesOf(fs);
    LinkFits(0);
    res := FillLastFrag(f.obj, f.clust, END_OF_CHAIN);
    if res != Fine { return; }
    FatOnlySame(fs.g, v, fs.view);
    if s.nFrag == 0 { KeepsSelf(s.tab, f.chain); }
    OwnLinks(fs.g, t, TablesOf(fs), f.chain);
    ApartMoved(fs.g, f.mark, v, t, fs.view, TablesOf(fs), f.chain, f.addrs);
    BufferMoved(fs.g, v, w, fs.view, fs.winsect, f.addrs, f.secs, f.sect, f.dirty, f.buf[..]);
  }

  lemma {:induction false} SettledHead(g: Geometry, s: Lazy, bits: seq<bool>, free: nat, ch: seq<nat>, addrs: seq<nat>)
    requires g.fsType == ExFat && ChainSealed(g, s, bits, free, ch, addrs) && |s.tab| == g.nFatent
    ensures s.stat == 3 ==> 2 <= s.sclust && s.sclust + s.nCont <= g.nFatent
    ensures FillFirst(s).stat in {0, 2} && ChainSealed(g, FillFirst(s), bits, free, ch, addrs) == true
    ensures KeepsOthers(s.tab, FillFirst(s).tab, ch) == true
  {
    assert OpenLinks();
    if ch != [] {
      FillFirstRepresents(s, ch);
      FillFirstKeeps(s, ch);
    }
  }

  /** `fill_first_frag` on the file. */
  method SettleHead(f: File) returns (res: Status)
    requires f.Sound() && Chained(f) && f.obj.fs.g.fsType == ExFat
    modifies f.obj`stat, f.obj.fs`disk, f.obj.fs`fat2, f.obj.fs`wflag, f.obj.fs`winsect, f.obj.fs`stale
    modifies f.obj.fs`view, f.obj.fs`tab, f.obj.fs.win
    ensures f.obj.fs.Valid() && res in {Fine, DiskErr}
    ensures res == Fine ==> f.Sound() && Chained(f) && f.obj.stat in {0, 2}
  {
    var fs := f.obj.fs;
    VolumeFacts(fs);
    ghost var s := f.obj.Fields();
    SettledHead(fs.g, s, fs.bits, fs.freeClst, f.chain, f.addrs);
    ghost var v, w, t := fs.view, fs.winsect, TablesOf(fs);
    res := FillFirstFrag(f.obj);
    if res != Fine { return; }
    FatOnlySame(fs.g, v, fs.view);
    OwnLinks(fs.g, t, TablesOf(fs), f.chain);
    ApartMoved(fs.g, f.mark, v, t, fs.view, TablesOf(fs), f.chain, f.addrs);
    BufferMoved(fs.g, v, w, fs.view, fs.winsect, f.addrs, f.secs, f.sect, f.dirty, f.buf[..]);
  }
}
