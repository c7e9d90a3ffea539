/** `f_read` and `f_write` against a plain sequence of bytes. */
module FileLayer {
  import opened Arith
  import opened FatCodec
  import opened Volumes
  import opened FileMap
  import opened FileBuffer
  import opened FileChain

  // ---- positions ----

  /** Index in the chain of the cluster that holds byte `pos`. */
  function ClusterOf(g: Geometry, pos: nat): nat
    requires g.ss > 0 && g.csize > 0
  {
    Quot(Quot(pos, g.ss), g.csize)
  }

  /** File sector `q` is in cluster `k` of the chain. */
  ghost predicate InCluster(g: Geometry, q: nat, k: nat) {
    Times(g.csize, k) <= q < Times(g.csize, k) + g.csize
  }

  lemma {:induction false} ClusterOfAt(g: Geometry, pos: nat, q: nat, k: nat)
    requires g.ss > 0 && g.csize > 0
    requires Times(g.ss, q) <= pos < Times(g.ss, q) + g.ss && InCluster(g, q, k)
    ensures ClusterOf(g, pos) == k
  {
    QuotUnique(pos, g.ss, q);
    QuotUnique(q, g.csize, k);
  }

  /** The byte before a cluster boundary is in the previous cluster, the one before another sector boundary is not. */
  lemma {:induction false} ClusterBefore(g: Geometry, q: nat, k: nat)
    requires g.ss > 0 && g.csize > 0 && q > 0 && InCluster(g, q, k)
    ensures Times(g.ss, q) > 0
    ensures ClusterOf(g, Times(g.ss, q) - 1) == (if q == Times(g.csize, k) then k - 1 else k)
  {
    TimesMono(g.ss, q - 1, q);
    ClusterOfAt(g, Times(g.ss, q) - 1, q - 1, if q == Times(g.csize, k) then k - 1 else k);
  }

  /** The current cluster is the one before the pointer, the last one if its links are not on the FAT yet. */
  ghost predicate ClusterKnown(g: Geometry, fptr: nat, clust: nat, ch: seq<nat>, nFrag: nat) {
    && g.ss > 0 && g.csize > 0
    && (fptr > 0 ==>
          var k := ClusterOf(g, fptr - 1);
          k < |ch| && clust == ch[k] && (g.fsType == ExFat && nFrag > 0 ==> k + 1 == |ch|))
    && (fptr == 0 && g.fsType == ExFat ==> nFrag == 0)
  }

  ghost predicate ClusterPlaced(f: File)
    reads f`fptr, f`clust, f`chain, f.obj`objsize, f.obj`nFrag
  {
    && Fits(f.obj.fs.g, f.obj.objsize, |f.chain|) && f.fptr <= f.obj.objsize
    && ClusterKnown(f.obj.fs.g, f.fptr, f.clust, f.chain, f.obj.nFrag)
  }

  /** Where the pointer is: its cluster is known, and a sector it points into is buffered. */
  ghost predicate Placed(f: File)
    reads f`fptr, f`clust, f`sect, f`chain, f`addrs, f.obj`objsize, f.obj`nFrag
  {
    && ClusterPlaced(f)
    && (Times(f.obj.fs.g.ss, Quot(f.fptr, f.obj.fs.g.ss)) != f.fptr ==>
          Quot(f.fptr, f.obj.fs.g.ss) < |f.addrs| && f.sect == f.addrs[Quot(f.fptr, f.obj.fs.g.ss)])
  }

  /** `assert OpenFile();` lets the verifier look at the parts of the invariant of an open file. */
  ghost predicate OpenFile(i: int := 0) {
    true
  }

  /** The invariant of an open file. */
  ghost predicate FileOk(f: File)
    reads f`fptr, f`clust, f`sect, f`dirty, f`chain, f`addrs, f`secs, f`mark, f.buf
    reads f.obj`sclust, f.obj`objsize, f.obj`stat, f.obj`nCont, f.obj`nFrag, f.obj.fs, f.obj.fs.win
  {
    f.obj.fs.Valid() && forall i {:trigger OpenFile(i)} :: OpenFile(i) ==> f.Sound() && Chained(f) && Placed(f)
  }

  // ---- contents ----

  /** The bytes of the file. */
  ghost function Content(f: File): (c: seq<byte>)
    reads f`secs, f.obj`objsize
    ensures f.obj.objsize <= |Flat(f.secs)| ==> |c| == f.obj.objsize
  {
    Prefix(Flat(f.secs), f.obj.objsize)
  }

  ghost function Prefix(s: seq<byte>, n: nat): (p: seq<byte>)
    ensures n <= |s| ==> |p| == n
  {
    if n <= |s| then s[..n] else s
  }

  /** The clusters of the file hold at least its bytes. */
  lemma {:induction false} RoomHere(f: File)
    requires f.Sound() && Chained(f)
    ensures AllSized(f.secs, f.obj.fs.g.ss) && |f.secs| == |f.addrs| == Times(f.obj.fs.g.csize, |f.chain|)
    ensures |Flat(f.secs)| == Room(f.obj.fs.g, |f.chain|)
    ensures f.obj.fs.g.ss > 0 && f.obj.fs.g.csize > 0
    ensures |f.addrs| < 0x1_0000_0000
  {
    VolumeFacts(f.obj.fs);
    assert OpenBuffer() && OpenLinks();
    AddrsLength(f.obj.fs.g, f.chain);
    FlatLength(f.secs, f.obj.fs.g.ss);
    forall q | 0 <= q < |f.addrs|
      ensures f.addrs[q] < |f.obj.fs.view|
    {
      assert FileSector(f.obj.fs.g, |f.obj.fs.view|, f.obj.fs.winsect, f.addrs[q]);
    }
    Pigeonhole(f.addrs, |f.obj.fs.view|);
  }

  lemma {:induction false} FileFacts(f: File)
    requires FileOk(f)
    ensures f.obj.fs.Valid() && f.obj.fs.g.ss > 0 && f.obj.fs.g.csize > 0
    ensures f.fptr <= f.obj.objsize == |Content(f)| && (f.obj.fs.g.fsType != ExFat ==> f.obj.objsize <= 0xFFFF_FFFF)
  {
    assert OpenFile();
    RoomHere(f);
  }

  lemma {:induction false} PrefixGrown(a: seq<Sector>, b: seq<Sector>, n: nat)
    requires a <= b && n <= |Flat(a)|
    ensures Prefix(Flat(b), n) == Prefix(Flat(a), n) && n <= |Flat(b)|
  {
    FlatAppend(a, b[|a|..]);
    assert b == a + b[|a|..];
  }

  lemma {:induction false} PrefixAdopted(secs: seq<Sector>, ss: nat, q: nat, sec: Sector, n: nat)
    requires AllSized(secs, ss) && q < |secs| && |sec| == ss && n <= Times(ss, q)
    ensures AllSized(secs[q := sec], ss) && n <= |Flat(secs)|
    ensures Prefix(Flat(secs[q := sec]), n) == Prefix(Flat(secs), n)
  {
    FlatUpdate(secs, ss, q, sec);
  }

  function Max(a: nat, b: nat): nat {
    if a > b then a else b
  }

  /** Replacing bytes of the clusters of a file is a write to the file. */
  lemma PrefixWritten(was: seq<byte>, now: seq<byte>, n: nat, pos: nat, data: seq<byte>)
    requires pos <= n <= |was| && pos + |data| <= |was| && now == Splice(was, pos, data)
    ensures Prefix(now, Max(n, pos + |data|)) == WriteAt(Prefix(was, n), pos, data)
  {
  }

  lemma {:induction false} PrefixPatched(secs: seq<Sector>, ss: nat, q: nat, o: nat, data: seq<byte>, n: nat)
    requires AllSized(secs, ss) && q < |secs| && o + |data| <= ss
    requires Times(ss, q) + o <= n <= |Flat(secs)|
    ensures Times(ss, q) + ss <= |Flat(secs)|
    ensures Prefix(Flat(secs[q := Splice(secs[q], o, data)]), Max(n, Times(ss, q) + o + |data|)) ==
            WriteAt(Prefix(Flat(secs), n), Times(ss, q) + o, data)
  {
    FlatPatch(secs, ss, q, o, data);
    PrefixWritten(Flat(secs), Flat(secs[q := Splice(secs[q], o, data)]), n, Times(ss, q) + o, data);
  }

  lemma {:induction false} PrefixSpliced(secs: seq<Sector>, ss: nat, q: nat, run: seq<Sector>, n: nat)
    requires AllSized(secs, ss) && AllSized(run, ss) && q + |run| <= |secs|
    requires Times(ss, q) <= n <= |Flat(secs)|
    ensures Times(ss, q) + |Flat(run)| <= |Flat(secs)|
    ensures Prefix(Flat(Splice(secs, q, run)), Max(n, Times(ss, q) + |Flat(run)|)) ==
            WriteAt(Prefix(Flat(secs), n), Times(ss, q), Flat(run))
  {
    FlatSplice(secs, ss, q, run);
    PrefixWritten(Flat(secs), Flat(Splice(secs, q, run)), n, Times(ss, q), Flat(run));
  }

  // ---- one step of a transfer ----

  /** `clst2sect`: the first sector of a cluster, 0 for an invalid one. */
  function Clst2Sect(g: Geometry, clst: nat): nat {
    if clst < 2 || clst >= g.nFatent then 0 else ClusterSector(g, clst)
  }

  /** The pointer is at byte `o` of file sector `q`, in the current cluster, number `k` of the chain. */
  ghost predicate Entered(f: File, q: nat, o: nat, k: nat)
    reads f`fptr, f`clust, f`sect, f`dirty, f`chain, f`addrs, f`secs, f`mark, f.buf
    reads f.obj`sclust, f.obj`objsize, f.obj`stat, f.obj`nCont, f.obj`nFrag, f.obj.fs, f.obj.fs.win
  {
    && f.Sound() && Chained(f)
    && f.fptr == Times(f.obj.fs.g.ss, q) + o && o < f.obj.fs.g.ss
    && InCluster(f.obj.fs.g, q, k) && k < |f.chain| && f.clust == f.chain[k]
    && f.fptr <= f.obj.objsize <= Room(f.obj.fs.g, |f.chain|)
    && (f.obj.fs.g.fsType == ExFat ==>
          // a cluster just added is about to be used
          && Max(f.obj.objsize, f.fptr + 1) > Room(f.obj.fs.g, |f.chain| - 1)
          && (f.obj.nFrag > 0 ==> k + 1 == |f.chain|))
    && (f.obj.fs.g.fsType != ExFat ==> f.obj.objsize <= 0xFFFF_FFFF)
  }

  /** The current sector. */
  lemma {:induction false} CurrentSector(f: File, q: nat, o: nat, k: nat)
    requires Entered(f, q, o, k)
    ensures q < |f.addrs| && Clst2Sect(f.obj.fs.g, f.clust) > 0
    ensures f.addrs[q] == Clst2Sect(f.obj.fs.g, f.clust) + (q - Times(f.obj.fs.g.csize, k))
    ensures forall n | 0 <= n <= f.obj.fs.g.csize - (q - Times(f.obj.fs.g.csize, k)) :: Contiguous(f.addrs, q, n)
  {
    VolumeFacts(f.obj.fs);
    assert OpenLinks();
    var g := f.obj.fs.g;
    AddrsLength(g, f.chain);
    TimesMono(g.csize, k, |f.chain|);
    AddrsAt(g, f.chain, k, q - Times(g.csize, k));
    forall i | q <= i < Times(g.csize, k) + g.csize
      ensures i < |f.addrs| && f.addrs[i] == f.addrs[q] + (i - q)
    {
      AddrsAt(g, f.chain, k, i - Times(g.csize, k));
    }
  }

  lemma {:induction false} TimesAdd(d: nat, a: nat, b: nat)
    ensures Times(d, a + b) == Times(d, a) + Times(d, b)
  {
    if b > 0 {
      TimesAdd(d, a, b - 1);
    }
  }

  /** A transfer of `n` bytes from sector `q`, offset `o`, stays in cluster `k`: part of a sector, or whole sectors. */
  ghost predicate Within(g: Geometry, q: nat, o: nat, k: nat, n: nat, cc: nat) {
    InCluster(g, q, k) && n > 0 && o < g.ss &&
    if cc == 0 then o + n <= g.ss
    else o == 0 && n == Times(g.ss, cc) && q + cc <= Times(g.csize, k) + g.csize
  }

  lemma {:induction false} WithinRoom(g: Geometry, q: nat, o: nat, k: nat, n: nat, cc: nat, len: nat)
    requires Within(g, q, o, k, n, cc) && k < len
    ensures Times(g.ss, q) + o + n <= Room(g, len)
  {
    var m := if cc == 0 then 1 else cc;
    TimesAdd(g.ss, q, m);
    TimesMono(g.csize, k + 1, len);
    TimesMono(g.ss, q + m, Times(g.csize, len));
  }

  /** The last byte touched is in cluster `k`, and the pointer is then in sector `q` or on a sector boundary. */
  lemma {:induction false} WithinPlace(g: Geometry, q: nat, o: nat, k: nat, n: nat, cc: nat)
    requires Within(g, q, o, k, n, cc) && g.ss > 0 && g.csize > 0
    ensures var p := Times(g.ss, q) + o + n;
            && ClusterOf(g, p - 1) == k
            && (Times(g.ss, Quot(p, g.ss)) != p ==> cc == 0 && Quot(p, g.ss) == q)
  {
    var p := Times(g.ss, q) + o + n;
    var m := if cc == 0 then 1 else cc;
    TimesAdd(g.ss, q, m);
    TimesMono(g.ss, q + m - 1, q + m);
    ClusterOfAt(g, p - 1, q + m - 1, k);
    QuotUnique(p, g.ss, if cc == 0 && o + n < g.ss then q else q + m);
  }

  /** Move the pointer past `n` bytes just transferred, and the end of file with it. */
  method Advance(f: File, n: nat, ghost q: nat, ghost o: nat, ghost k: nat, ghost cc: nat)
    requires Entered(f, q, o, k) && Within(f.obj.fs.g, q, o, k, n, cc) && q < |f.addrs|
    requires cc == 0 ==> f.sect == f.addrs[q]
    requires f.obj.fs.g.fsType != ExFat ==> f.fptr + n <= 0xFFFF_FFFF
    modifies f`fptr, f.obj`objsize
    ensures FileOk(f) && f.fptr == old(f.fptr) + n && f.obj.objsize == Max(old(f.obj.objsize), f.fptr)
  {
    RoomHere(f);
    WithinRoom(f.obj.fs.g, q, o, k, n, cc, |f.chain|);
    WithinPlace(f.obj.fs.g, q, o, k, n, cc);
    f.fptr := f.fptr + n;
    f.obj.objsize := if f.fptr > f.obj.objsize then f.fptr else f.obj.objsize;
  }

  /** Write bytes into the buffered sector. */
  method PutBytes(f: File, data: seq<byte>, o: nat, ghost q: nat, ghost k: nat)
    requires Entered(f, q, o, k) && q < |f.addrs| && f.sect == f.addrs[q] && 0 < |data| <= f.obj.fs.g.ss - o
    requires f.obj.fs.g.fsType != ExFat ==> f.fptr + |data| <= 0xFFFF_FFFF
    modifies f`dirty, f`secs, f.buf, f`fptr, f.obj`objsize
    ensures FileOk(f) && f.fptr == old(f.fptr) + |data| && old(f.fptr) <= |old(Content(f))|
    ensures Content(f) == WriteAt(old(Content(f)), old(f.fptr), data)
  {
    RoomHere(f);
    PrefixPatched(f.secs, f.obj.fs.g.ss, q, o, data, f.obj.objsize);
    f.Patch(q, o, data);
    Advance(f, |data|, q, o, k, 0);
  }

  /** The bytes to write, cut into sectors. */
  method CutSectors(data: seq<byte>, ss: nat, cc: nat, ghost secs: seq<Sector>, ghost q: nat, ghost n: nat)
    returns (run: seq<Sector>)
    requires |data| == Times(ss, cc) && AllSized(secs, ss) && q + cc <= |secs| && Times(ss, q) <= n <= |Flat(secs)|
    ensures |run| == cc && AllSized(run, ss)
    ensures Prefix(Flat(Splice(secs, q, run)), Max(n, Times(ss, q) + |data|)) == WriteAt(Prefix(Flat(secs), n), Times(ss, q), data)
  {
    run := Chunks(data, ss, cc);
    assert Flat(run) == data;
    PrefixSpliced(secs, ss, q, run, n);
  }

  /** Write whole sectors past the buffer. */
  method PutSectors(f: File, sc: nat, data: seq<byte>, cc: nat, ghost q: nat, ghost k: nat) returns (ok: bool)
    requires Entered(f, q, 0, k) && !f.dirty && cc > 0 && q + cc <= Times(f.obj.fs.g.csize, k) + f.obj.fs.g.csize
    requires Contiguous(f.addrs, q, cc) && sc == f.addrs[q] && |data| == Times(f.obj.fs.g.ss, cc)
    requires f.obj.fs.g.fsType != ExFat ==> f.fptr + |data| <= 0xFFFF_FFFF
    modifies f`secs, f.buf, f`fptr, f.obj`objsize, f.obj.fs`disk, f.obj.fs`view
    ensures f.obj.fs.Valid()
    ensures ok ==> FileOk(f) && f.fptr == old(f.fptr) + |data| && old(f.fptr) <= |old(Content(f))|
    ensures ok ==> Content(f) == WriteAt(old(Content(f)), old(f.fptr), data)
  {
    RoomHere(f);
    var run := CutSectors(data, f.obj.fs.g.ss, cc, f.secs, q, f.obj.objsize);
    TimesMono(f.obj.fs.g.ss, 1, cc);
    ok := f.DirectWrite(sc, q, run);
    if ok {
      Advance(f, |data|, q, 0, k, cc);
    }
  }

  /** Make the buffer stand for the current sector, reading it unless it is past the end of the file. */
  method Prepare(f: File, sc: nat, ghost q: nat, ghost k: nat) returns (ok: bool)
    requires Entered(f, q, 0, k) && !f.dirty && q < |f.addrs| && sc == f.addrs[q]
    modifies f`sect, f`dirty, f`secs, f.buf
    ensures f.obj.fs.Valid()
    ensures ok ==> Entered(f, q, 0, k) && f.sect == sc && Content(f) == old(Content(f))
  {
    ok := true;
    if f.sect != sc {
      if f.fptr < f.obj.objsize {
        ok := f.Load(sc, q);
      } else {
        RoomHere(f);
        ghost var secs := f.secs;
        f.Adopt(sc, q);
        PrefixAdopted(secs, f.obj.fs.g.ss, q, f.buf[..], f.obj.objsize);
      }
    }
  }

  /** Write the buffer back if it is dirty. */
  method WriteBack(f: File, ghost q: nat, ghost k: nat) returns (ok: bool)
    requires Entered(f, q, 0, k)
    modifies f`dirty, f.obj.fs`disk, f.obj.fs`view
    ensures f.obj.fs.Valid()
    ensures ok ==> Entered(f, q, 0, k) && !f.dirty
  {
    ok := true;
    if f.dirty { ok := f.Flush(); }
  }

  /** The file on entering cluster `k`, from its boundary. */
  lemma {:induction false} EnterAt(f: File, k: nat)
    requires FileOk(f) && f.fptr == Room(f.obj.fs.g, k)
    ensures k <= |f.chain|
    ensures k > 0 ==> f.fptr > 0 && k - 1 < |f.chain| && f.clust == f.chain[k - 1] && At(f, f.clust, k - 1)
    ensures k == 0 ==> f.fptr == 0
    ensures f.chain == [] <==> f.obj.sclust == 0
    ensures f.chain != [] ==> f.obj.sclust == f.chain[0] >= 2
  {
    assert OpenFile();
    RoomHere(f);
    assert OpenLinks();
    var g := f.obj.fs.g;
    if k > 0 {
      TimesMono(g.csize, k - 1, k);
      ClusterBefore(g, Times(g.csize, k), k);
      assert f.chain[k - 1] >= 2;
    }
  }

  /** Away from a cluster boundary the current cluster is the pointer's. */
  lemma {:induction false} Inside(f: File, q: nat, o: nat, k: nat)
    requires FileOk(f) && f.fptr == Times(f.obj.fs.g.ss, q) + o && o < f.obj.fs.g.ss && InCluster(f.obj.fs.g, q, k)
    requires o > 0 || q != Times(f.obj.fs.g.csize, k)
    ensures Entered(f, q, o, k)
    ensures o > 0 ==> q < |f.addrs| && f.sect == f.addrs[q]
  {
    assert OpenFile();
    RoomHere(f);
    var g := f.obj.fs.g;
    if o > 0 {
      QuotUnique(f.fptr, g.ss, q);
      ClusterOfAt(g, f.fptr - 1, q, k);
    } else {
      ClusterBefore(g, q, k);
    }
  }

  /** What entering cluster `k` leaves, once its number is known. */
  lemma {:induction false} EnteredAt(f: File, k: nat)
    requires f.Sound() && Chained(f) && k < |f.chain| && f.clust == f.chain[k] && f.fptr == Room(f.obj.fs.g, k)
    requires f.fptr <= f.obj.objsize <= Room(f.obj.fs.g, |f.chain|)
    requires f.obj.fs.g.fsType != ExFat ==> f.obj.objsize <= 0xFFFF_FFFF
    requires f.obj.fs.g.fsType == ExFat ==>
               && (f.obj.nFrag > 0 ==> k + 1 == |f.chain|)
               && (k + 1 == |f.chain| || f.obj.objsize > Room(f.obj.fs.g, |f.chain| - 1))
    ensures Entered(f, Times(f.obj.fs.g.csize, k), 0, k)
  {
    RoomHere(f);
  }

  /** On the boundary of cluster `k`: its number, after adding one to the chain if need be. */
  method NextCluster(f: File, ghost k: nat) returns (clst: nat)
    requires FileOk(f) && f.fptr == Room(f.obj.fs.g, k)
    modifies f`chain, f`addrs, f`secs, f.obj`sclust, f.obj`stat, f.obj`nCont, f.obj`nFrag
    modifies f.obj.fs`disk, f.obj.fs`fat2, f.obj.fs`wflag, f.obj.fs`winsect, f.obj.fs`stale, f.obj.fs.win
    modifies f.obj.fs`view, f.obj.fs`tab, f.obj.fs`bits, f.obj.fs`freeClst, f.obj.fs`lastClst, f.obj.fs`fsiDirty
    ensures f.obj.fs.Valid()
    ensures clst == 0 ==>
              && f.Sound() && Chained(f) && f.chain == old(f.chain) && f.secs == old(f.secs) && f.obj.nFrag == old(f.obj.nFrag)
              && Full(f.obj.fs.g, f.obj.fs.tab, f.obj.fs.bits)
    ensures clst >= 2 && clst != DISK_ERROR ==>
              && f.Sound() && Chained(f) && old(f.secs) <= f.secs && k < |f.chain| && clst == f.chain[k]
              && (|f.chain| == |old(f.chain)| || k + 1 == |f.chain| == |old(f.chain)| + 1)
              && (f.obj.fs.g.fsType == ExFat && f.obj.nFrag > 0 ==> k + 1 == |f.chain|)
  {
    assert OpenFile();
    EnterAt(f, k);
    clst := f.obj.sclust;
    if f.fptr == 0 {
      if clst == 0 { clst := Stretch(f, 0, 0); }
    } else {
      clst := Stretch(f, f.clust, k - 1);
    }
  }

  /** On a cluster boundary: find the cluster that follows, or add one. */
  method Enter(f: File, ghost k: nat) returns (res: Status, full: bool)
    requires FileOk(f) && f.fptr == Room(f.obj.fs.g, k)
    modifies f`clust, f`chain, f`addrs, f`secs, f.obj`sclust, f.obj`stat, f.obj`nCont, f.obj`nFrag
    modifies f.obj.fs`disk, f.obj.fs`fat2, f.obj.fs`wflag, f.obj.fs`winsect, f.obj.fs`stale, f.obj.fs.win
    modifies f.obj.fs`view, f.obj.fs`tab, f.obj.fs`bits, f.obj.fs`freeClst, f.obj.fs`lastClst, f.obj.fs`fsiDirty
    ensures f.obj.fs.Valid()
    ensures full ==> FileOk(f) && Content(f) == old(Content(f)) && Full(f.obj.fs.g, f.obj.fs.tab, f.obj.fs.bits)
    ensures !full && res == Fine ==> Entered(f, Times(f.obj.fs.g.csize, k), 0, k) && Content(f) == old(Content(f))
    ensures res == Denied ==> false
  {
    assert OpenFile();
    RoomHere(f);
    ghost var n, secs := |f.chain|, f.secs;
    QuotUnique(f.fptr, f.obj.fs.g.ss, Times(f.obj.fs.g.csize, k));
    var clst := NextCluster(f, k);
    res, full := Fine, clst == 0;
    if clst == 0 { return; }
    if clst == 1 || clst == DISK_ERROR { res := if clst == 1 then IntErr else DiskErr; return; }
    f.clust := clst;
    PrefixGrown(secs, f.secs, f.obj.objsize);
    TimesMono(f.obj.fs.g.csize, n, |f.chain|);
    TimesMono(f.obj.fs.g.ss, Times(f.obj.fs.g.csize, n), Times(f.obj.fs.g.csize, |f.chain|));
    EnteredAt(f, k);
  }

  // ---- f_write ----

  /** One round of `f_write` from the current sector on: whole sectors directly, or part of one through the buffer. */
  method WriteHere(f: File, data: seq<byte>, csect: nat, ghost q: nat, ghost k: nat) returns (res: Status, n: nat)
    requires Entered(f, q, 0, k) && |data| > 0 && q == Times(f.obj.fs.g.csize, k) + csect
    requires f.obj.fs.g.fsType != ExFat ==> f.fptr + |data| <= 0xFFFF_FFFF
    modifies f`sect, f`dirty, f`secs, f.buf, f`fptr, f.obj`objsize, f.obj.fs`disk, f.obj.fs`view
    ensures f.obj.fs.Valid() && res in {Fine, DiskErr}
    ensures res == Fine ==>
              0 < n <= |data| && FileOk(f) && f.fptr == old(f.fptr) + n && old(f.fptr) <= |old(Content(f))|
    ensures res == Fine ==> Content(f) == WriteAt(old(Content(f)), old(f.fptr), data[..n])
  {
    var g := f.obj.fs.g;
    RoomHere(f);
    var ok := WriteBack(f, q, k);
    if !ok { return DiskErr, 0; }
    CurrentSector(f, q, 0, k);
    var sc := Clst2Sect(g, f.clust) + csect;
    var cc, rest := Split(|data|, g.ss);
    if cc > 0 {
      ghost var all := cc;
      if csect + cc > g.csize { cc := g.csize - csect; }
      n := DirectCount(g.ss, cc, |data|, all, rest);
      ok := PutSectors(f, sc, data[..n], cc, q, k);
      return if ok then Fine else DiskErr, n;
    }
    ok := PutFirst(f, sc, data, q, k);
    assert data[..|data|] == data;
    return if ok then Fine else DiskErr, |data|;
  }

  /** Write less than a sector on a sector boundary. */
  method PutFirst(f: File, sc: nat, data: seq<byte>, ghost q: nat, ghost k: nat) returns (ok: bool)
    requires Entered(f, q, 0, k) && !f.dirty && q < |f.addrs| && sc == f.addrs[q] && 0 < |data| < f.obj.fs.g.ss
    requires f.obj.fs.g.fsType != ExFat ==> f.fptr + |data| <= 0xFFFF_FFFF
    modifies f`sect, f`dirty, f`secs, f.buf, f`fptr, f.obj`objsize
    ensures f.obj.fs.Valid()
    ensures ok ==> FileOk(f) && f.fptr == old(f.fptr) + |data| && old(f.fptr) <= |old(Content(f))|
    ensures ok ==> Content(f) == WriteAt(old(Content(f)), old(f.fptr), data)
  {
    ok := Prepare(f, sc, q, k);
    if ok { PutBytes(f, data, 0, q, k); }
  }

  /** Bytes in `cc` sectors, no more than there are to write. */
  method DirectCount(ss: nat, cc: nat, len: nat, ghost all: nat, ghost rest: nat) returns (n: nat)
    requires ss > 0 && 0 < cc <= all && len == Times(ss, all) + rest
    ensures n == Times(ss, cc) && 0 < n <= len
  {
    TimesMono(ss, cc, all);
    TimesIs(ss, cc);
    n := ss * cc;
  }

  /** One round of `f_write`. No bytes are written when the disk is full. */
  method WriteStep(f: File, data: seq<byte>) returns (res: Status, n: nat)
    requires FileOk(f) && |data| > 0
    requires f.obj.fs.g.fsType != ExFat ==> f.fptr + |data| <= 0xFFFF_FFFF
    modifies f`clust, f`chain, f`addrs, f`sect, f`dirty, f`secs, f.buf, f`fptr
    modifies f.obj`objsize, f.obj`sclust, f.obj`stat, f.obj`nCont, f.obj`nFrag
    modifies f.obj.fs`disk, f.obj.fs`fat2, f.obj.fs`wflag, f.obj.fs`winsect, f.obj.fs`stale, f.obj.fs.win
    modifies f.obj.fs`view, f.obj.fs`tab, f.obj.fs`bits, f.obj.fs`freeClst, f.obj.fs`lastClst, f.obj.fs`fsiDirty
    ensures f.obj.fs.Valid() && res in {Fine, DiskErr, IntErr} && n <= |data|
    ensures res == Fine ==> FileOk(f) && f.fptr == old(f.fptr) + n && old(f.fptr) <= |old(Content(f))|
    ensures res == Fine ==> Content(f) == WriteAt(old(Content(f)), old(f.fptr), data[..n])
    ensures res == Fine && n == 0 ==> Full(f.obj.fs.g, f.obj.fs.tab, f.obj.fs.bits)
  {
    var g := f.obj.fs.g;
    FileFacts(f);
    var q, o := Split(f.fptr, g.ss);
    var k, csect := Split(q, g.csize);
    if o != 0 {
      Inside(f, q, o, k);
      n := if g.ss - o > |data| then |data| else g.ss - o;
      PutBytes(f, data[..n], o, q, k);
      return Fine, n;
    }
    if csect == 0 {
      var full;
      res, full := Enter(f, k);
      if full {
        WriteAtNone(Content(f), f.fptr);
        return Fine, 0;
      }
      if res != Fine { return res, 0; }
    } else {
      Inside(f, q, 0, k);
    }
    res, n := WriteHere(f, data, csect, q, k);
    if res != Fine { n := 0; }
  }

  /** Writing on after the first `a` bytes. */
  lemma Joined(c: seq<byte>, c1: seq<byte>, c2: seq<byte>, p: nat, data: seq<byte>, a: nat, b: nat, lim: nat)
    requires p <= |c| && a + b <= lim <= |data| && p + a <= |c1|
    requires c1 == WriteAt(c, p, data[..a]) && c2 == WriteAt(c1, p + a, data[a..lim][..b])
    ensures c2 == WriteAt(c, p, data[..a + b])
  {
    assert data[..a] + data[a..lim][..b] == data[..a + b];
    WriteAtTwice(c, p, data[..a], data[a..lim][..b]);
  }

  /** How much `f_write` takes: on FAT volumes a file stops below 4 GiB, by a test for 32-bit wrap-around. */
  function Clipped(g: Geometry, fptr: nat, btw: nat): (r: nat)
    requires g.fsType != ExFat ==> fptr <= 0xFFFF_FFFF && btw <= 0xFFFF_FFFF
    ensures r <= btw
    ensures g.fsType != ExFat ==> fptr + r <= 0xFFFF_FFFF
    ensures r < btw ==> g.fsType != ExFat && r == 0xFFFF_FFFF - fptr
  {
    if g.fsType != ExFat && (fptr + btw) % 0x1_0000_0000 < fptr then 0xFFFF_FFFF - fptr else btw
  }

  /**
   `f_write`: write `data` at the pointer. When it succeeds the file's bytes are those of the plain
   sequence after the same write, of all the data unless the disk is full or a FAT file reaches its limit.
   */
  method Write(f: File, data: seq<byte>) returns (res: Status, bw: nat)
    requires f.err == Fine ==> FileOk(f)
    requires |data| <= 0xFFFF_FFFF
    modifies f`clust, f`chain, f`addrs, f`sect, f`dirty, f`secs, f.buf, f`fptr, f`err, f`modified
    modifies f.obj`objsize, f.obj`sclust, f.obj`stat, f.obj`nCont, f.obj`nFrag
    modifies f.obj.fs`disk, f.obj.fs`fat2, f.obj.fs`wflag, f.obj.fs`winsect, f.obj.fs`stale, f.obj.fs.win
    modifies f.obj.fs`view, f.obj.fs`tab, f.obj.fs`bits, f.obj.fs`freeClst, f.obj.fs`lastClst, f.obj.fs`fsiDirty
    ensures old(f.err) != Fine ==> res == old(f.err) && bw == 0
    ensures old(f.err) == Fine && !f.canWrite ==> res == Denied && bw == 0
    ensures old(f.err) != Fine || !f.canWrite ==>
              Content(f) == old(Content(f)) && f.fptr == old(f.fptr) && f.err == old(f.err)
    ensures old(f.err) == Fine && f.canWrite ==> f.err == res && bw <= |data| && f.obj.fs.Valid()
    ensures res == Fine ==> FileOk(f) && f.fptr == old(f.fptr) + bw && old(f.fptr) <= |old(Content(f))| && f.modified
    ensures res == Fine ==> Content(f) == WriteAt(old(Content(f)), old(f.fptr), data[..bw])
    ensures res == Fine && bw < |data| ==>
              || Full(f.obj.fs.g, f.obj.fs.tab, f.obj.fs.bits)
              || (f.obj.fs.g.fsType != ExFat && f.fptr == 0xFFFF_FFFF)
  {
    bw := 0;
    res := f.err;
    if res != Fine { return; }
    if !f.canWrite { return Denied, 0; }
    FileFacts(f);
    res, bw := WriteUpTo(f, data, Clipped(f.obj.fs.g, f.fptr, |data|));
    if res != Fine {
      f.err := res;
      return;
    }
    f.modified := true;
  }

  /** The loop of `f_write`: the first `lim` bytes of `data`. */
  method WriteUpTo(f: File, data: seq<byte>, lim: nat) returns (res: Status, bw: nat)
    requires FileOk(f) && lim <= |data| && (f.obj.fs.g.fsType != ExFat ==> f.fptr + lim <= 0xFFFF_FFFF)
    modifies f`clust, f`chain, f`addrs, f`sect, f`dirty, f`secs, f.buf, f`fptr
    modifies f.obj`objsize, f.obj`sclust, f.obj`stat, f.obj`nCont, f.obj`nFrag
    modifies f.obj.fs`disk, f.obj.fs`fat2, f.obj.fs`wflag, f.obj.fs`winsect, f.obj.fs`stale, f.obj.fs.win
    modifies f.obj.fs`view, f.obj.fs`tab, f.obj.fs`bits, f.obj.fs`freeClst, f.obj.fs`lastClst, f.obj.fs`fsiDirty
    ensures f.obj.fs.Valid() && res in {Fine, DiskErr, IntErr} && bw <= lim
    ensures res == Fine ==> FileOk(f) && f.fptr == old(f.fptr) + bw && old(f.fptr) <= |old(Content(f))|
    ensures res == Fine ==> Content(f) == WriteAt(old(Content(f)), old(f.fptr), data[..bw])
    ensures res == Fine && bw < lim ==> Full(f.obj.fs.g, f.obj.fs.tab, f.obj.fs.bits)
  {
    bw, res := 0, Fine;
    ghost var c, p := Content(f), f.fptr;
    FileFacts(f);
    WriteAtNone(c, p);
    while bw < lim
      invariant bw <= lim && res == Fine && FileOk(f) == true && f.fptr == p + bw && p <= |c|
      invariant Content(f) == WriteAt(c, p, data[..bw])
    {
      var n;
      ghost var c1 := Content(f);
      res, n := WriteStep(f, data[bw..lim]);
      if res != Fine { return; }
      Joined(c, c1, Content(f), p, data, bw, n, lim);
      bw := bw + n;
      if n == 0 { return; }
    }
  }

  // ---- f_read ----

  lemma {:induction false} SectorBytes(f: File, q: nat, o: nat, n: nat)
    requires f.Sound() && Chained(f) && q < |f.secs| && o + n <= f.obj.fs.g.ss
    requires Times(f.obj.fs.g.ss, q) + o + n <= f.obj.objsize <= |Flat(f.secs)|
    ensures |f.secs[q]| == f.obj.fs.g.ss
    ensures f.secs[q][o..o + n] == Content(f)[Times(f.obj.fs.g.ss, q) + o..Times(f.obj.fs.g.ss, q) + o + n]
  {
    RoomHere(f);
    FlatSector(f.secs, f.obj.fs.g.ss, q);
    SubSlice(Flat(f.secs), Times(f.obj.fs.g.ss, q), f.obj.fs.g.ss, o, n, f.obj.objsize);
  }

  lemma SubSlice(s: seq<byte>, at: nat, len: nat, o: nat, n: nat, size: nat)
    requires at + len <= |s| && o + n <= len && at + o + n <= size <= |s|
    ensures s[at..at + len][o..o + n] == Prefix(s, size)[at + o..at + o + n]
  {
    var a, b := s[at..at + len][o..o + n], Prefix(s, size)[at + o..at + o + n];
    forall i | 0 <= i < n
      ensures a[i] == b[i]
    {
      assert s[at..at + len][o + i] == s[at + o + i];
    }
  }

  lemma {:induction false} RunBytes(f: File, q: nat, cc: nat)
    requires f.Sound() && Chained(f) && q + cc <= |f.secs|
    requires Times(f.obj.fs.g.ss, q) + Times(f.obj.fs.g.ss, cc) <= f.obj.objsize <= |Flat(f.secs)|
    ensures Flat(f.secs[q..q + cc]) ==
            Content(f)[Times(f.obj.fs.g.ss, q)..Times(f.obj.fs.g.ss, q) + Times(f.obj.fs.g.ss, cc)]
  {
    RoomHere(f);
    FlatSlice(f.secs, f.obj.fs.g.ss, q, cc);
    SubSlice(Flat(f.secs), Times(f.obj.fs.g.ss, q), Times(f.obj.fs.g.ss, cc), 0, Times(f.obj.fs.g.ss, cc), f.obj.objsize);
  }

  /** Move the pointer past `n` bytes just read. */
  method Pass(f: File, n: nat, ghost q: nat, ghost o: nat, ghost k: nat, ghost cc: nat)
    requires Entered(f, q, o, k) && Within(f.obj.fs.g, q, o, k, n, cc) && q < |f.addrs|
    requires cc == 0 ==> f.sect == f.addrs[q]
    requires f.fptr + n <= f.obj.objsize
    modifies f`fptr
    ensures FileOk(f) && f.fptr == old(f.fptr) + n
  {
    RoomHere(f);
    WithinPlace(f.obj.fs.g, q, o, k, n, cc);
    f.fptr := f.fptr + n;
  }

  /** On a cluster boundary inside the file: find the cluster that follows. */
  method EnterForRead(f: File, ghost k: nat) returns (res: Status)
    requires FileOk(f) && f.fptr == Room(f.obj.fs.g, k) && f.fptr < f.obj.objsize
    modifies f`clust, f.obj.fs`disk, f.obj.fs`fat2, f.obj.fs`wflag, f.obj.fs`winsect, f.obj.fs`stale, f.obj.fs.win
    ensures f.obj.fs.Valid() && res in {Fine, DiskErr}
    ensures res == Fine ==> Entered(f, Times(f.obj.fs.g.csize, k), 0, k)
  {
    assert OpenFile();
    RoomHere(f);
    EnterAt(f, k);
    BelowRoom(f.obj.fs.g, k, |f.chain|, f.obj.objsize);
    var clst := f.obj.sclust;
    if f.fptr != 0 { clst := Follow(f, f.clust, k - 1); }
    if clst == DISK_ERROR { return DiskErr; }
    f.clust := clst;
    EnteredAt(f, k);
    res := Fine;
  }

  lemma {:induction false} BelowRoom(g: Geometry, k: nat, n: nat, size: nat)
    requires Room(g, k) < size <= Room(g, n)
    ensures k < n
  {
    if n <= k {
      TimesMono(g.csize, n, k);
      TimesMono(g.ss, Times(g.csize, n), Times(g.csize, k));
    }
  }

  /** Make the buffer show the current sector. */
  method PrepareForRead(f: File, sc: nat, ghost q: nat, ghost k: nat) returns (ok: bool)
    requires Entered(f, q, 0, k) && q < |f.addrs| && sc == f.addrs[q]
    modifies f`sect, f`dirty, f.buf, f.obj.fs`disk, f.obj.fs`view
    ensures f.obj.fs.Valid()
    ensures ok ==> Entered(f, q, 0, k) && f.sect == sc
  {
    ok := true;
    if f.sect != sc {
      ok := WriteBack(f, q, k);
      if ok { ok := f.Load(sc, q); }
    }
  }

  /** Read from the buffered sector. */
  method TakeBytes(f: File, n: nat, o: nat, ghost q: nat, ghost k: nat) returns (out: seq<byte>)
    requires Entered(f, q, o, k) && q < |f.addrs| && f.sect == f.addrs[q] && 0 < n <= f.obj.fs.g.ss - o
    requires f.fptr + n <= f.obj.objsize
    modifies f`fptr
    ensures FileOk(f) && f.fptr == old(f.fptr) + n
    ensures f.fptr <= |Content(f)| && out == Content(f)[old(f.fptr)..f.fptr]
  {
    RoomHere(f);
    SectorBytes(f, q, o, n);
    BufferIs(f, q);
    out := f.buf[o..o + n];
    Pass(f, n, q, o, k, 0);
  }

  lemma BufferIs(f: File, q: nat)
    requires f.Sound() && q < |f.addrs| && f.sect == f.addrs[q]
    ensures f.buf[..] == f.secs[q]
  {
    assert OpenBuffer();
  }

  /** Read whole sectors past the buffer. */
  method TakeSectors(f: File, sc: nat, cc: nat, n: nat, ghost q: nat, ghost k: nat) returns (ok: bool, out: seq<byte>)
    requires Entered(f, q, 0, k) && cc > 0 && q + cc <= Times(f.obj.fs.g.csize, k) + f.obj.fs.g.csize
    requires Contiguous(f.addrs, q, cc) && sc == f.addrs[q] && 0 < n == Times(f.obj.fs.g.ss, cc) && f.fptr + n <= f.obj.objsize
    modifies f`fptr
    ensures f.obj.fs.Valid()
    ensures ok ==> FileOk(f) && f.fptr == old(f.fptr) + n
    ensures ok ==> f.fptr <= |Content(f)| && out == Content(f)[old(f.fptr)..f.fptr]
  {
    RoomHere(f);
    RunBytes(f, q, cc);
    var data;
    ok, data := f.DirectRead(sc, q, cc);
    out := [];
    if ok {
      out := Flat(data);
      Pass(f, n, q, 0, k, cc);
    }
  }

  /** One round of `f_read` from the current sector on. */
  method ReadHere(f: File, btr: nat, csect: nat, ghost q: nat, ghost k: nat) returns (res: Status, out: seq<byte>)
    requires Entered(f, q, 0, k) && btr > 0 && q == Times(f.obj.fs.g.csize, k) + csect && f.fptr + btr <= f.obj.objsize
    modifies f`sect, f`dirty, f.buf, f`fptr, f.obj.fs`disk, f.obj.fs`view
    ensures f.obj.fs.Valid() && res in {Fine, DiskErr}
    ensures res == Fine ==> 0 < |out| <= btr && FileOk(f) && f.fptr == old(f.fptr) + |out|
    ensures res == Fine ==> f.fptr <= |Content(f)| && out == Content(f)[old(f.fptr)..f.fptr]
  {
    var g := f.obj.fs.g;
    RoomHere(f);
    CurrentSector(f, q, 0, k);
    var sc := Clst2Sect(g, f.clust) + csect;
    var cc, rest := Split(btr, g.ss);
    var ok;
    if cc > 0 {
      ghost var all := cc;
      if csect + cc > g.csize { cc := g.csize - csect; }
      var n := DirectCount(g.ss, cc, btr, all, rest);
      ok, out := TakeSectors(f, sc, cc, n, q, k);
      return if ok then Fine else DiskErr, out;
    }
    ok := PrepareForRead(f, sc, q, k);
    if !ok { return DiskErr, []; }
    out := TakeBytes(f, btr, 0, q, k);
    res := Fine;
  }

  /** One round of `f_read`. */
  method ReadStep(f: File, btr: nat) returns (res: Status, out: seq<byte>)
    requires FileOk(f) && btr > 0 && f.fptr + btr <= f.obj.objsize
    modifies f`clust, f`sect, f`dirty, f.buf, f`fptr
    modifies f.obj.fs`disk, f.obj.fs`fat2, f.obj.fs`wflag, f.obj.fs`winsect, f.obj.fs`stale, f.obj.fs.win, f.obj.fs`view
    ensures f.obj.fs.Valid() && res in {Fine, DiskErr}
    ensures res == Fine ==> 0 < |out| <= btr && FileOk(f) && f.fptr == old(f.fptr) + |out|
    ensures res == Fine ==> f.fptr <= |Content(f)| && out == Content(f)[old(f.fptr)..f.fptr]
  {
    var g := f.obj.fs.g;
    FileFacts(f);
    var q, o := Split(f.fptr, g.ss);
    var k, csect := Split(q, g.csize);
    if o != 0 {
      Inside(f, q, o, k);
      out := TakeBytes(f, if g.ss - o > btr then btr else g.ss - o, o, q, k);
      return Fine, out;
    }
    if csect == 0 {
      res := EnterForRead(f, k);
      if res != Fine { return res, []; }
    } else {
      Inside(f, q, 0, k);
    }
    res, out := ReadHere(f, btr, csect, q, k);
  }

  /**
   `f_read`: the next `btr` bytes, or all up to the end of the file. When it succeeds they are those
   of the plain sequence, which does not change.
   */
  method Read(f: File, btr: nat) returns (res: Status, out: seq<byte>)
    requires f.err == Fine ==> FileOk(f)
    modifies f`clust, f`sect, f`dirty, f.buf, f`fptr, f`err
    modifies f.obj.fs`disk, f.obj.fs`fat2, f.obj.fs`wflag, f.obj.fs`winsect, f.obj.fs`stale, f.obj.fs.win, f.obj.fs`view
    ensures old(f.err) != Fine ==> res == old(f.err)
    ensures old(f.err) == Fine && !f.canRead ==> res == Denied
    ensures old(f.err) != Fine || !f.canRead ==> out == [] && f.fptr == old(f.fptr) && f.err == old(f.err)
    ensures old(f.err) == Fine && f.canRead ==> f.err == res && f.obj.fs.Valid()
    ensures Content(f) == old(Content(f))
    ensures res == Fine ==>
              && FileOk(f) && old(f.fptr) <= |Content(f)|
              && f.fptr == (if old(f.fptr) + btr > |Content(f)| then |Content(f)| else old(f.fptr) + btr)
              && out == Content(f)[old(f.fptr)..f.fptr]
  {
    out := [];
    res := f.err;
    if res != Fine { return; }
    if !f.canRead { return Denied, []; }
    FileFacts(f);
    res, out := ReadUpTo(f, if btr > f.obj.objsize - f.fptr then f.obj.objsize - f.fptr else btr);
    if res != Fine { f.err := res; }
  }

  lemma SlicesJoin(c: seq<byte>, p: nat, x: nat, y: nat)
    requires p <= x <= y <= |c|
    ensures c[p..x] + c[x..y] == c[p..y]
  {
  }

  /** The loop of `f_read`: `all` bytes that the file has. */
  method ReadUpTo(f: File, all: nat) returns (res: Status, out: seq<byte>)
    requires FileOk(f) && f.fptr + all <= f.obj.objsize
    modifies f`clust, f`sect, f`dirty, f.buf, f`fptr
    modifies f.obj.fs`disk, f.obj.fs`fat2, f.obj.fs`wflag, f.obj.fs`winsect, f.obj.fs`stale, f.obj.fs.win, f.obj.fs`view
    ensures f.obj.fs.Valid() && res in {Fine, DiskErr}
    ensures res == Fine ==> FileOk(f) && f.fptr == old(f.fptr) + all
    ensures res == Fine ==> f.fptr <= |Content(f)| && out == Content(f)[old(f.fptr)..f.fptr]
  {
    out, res := [], Fine;
    FileFacts(f);
    ghost var c := Content(f);
    ghost var p := f.fptr;
    var left: nat := all;
    while left > 0
      invariant left <= all && res == Fine
      invariant FileOk(f) == true && f.fptr == p + (all - left) && p + all <= f.obj.objsize == |c|
      invariant out == c[p..f.fptr]
    {
      var more;
      ghost var x := f.fptr;
      res, more := ReadStep(f, left);
      if res != Fine { return; }
      SlicesJoin(c, p, x, f.fptr);
      out := out + more;
      left := left - |more|;
    }
  }
}
