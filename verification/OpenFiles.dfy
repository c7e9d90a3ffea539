/** Runs of operations on several open files of one volume. */
module OpenFiles {
  import opened Arith
  import opened FatCodec
  import opened Volumes
  import opened Chains
  import opened ExfatLazy
  import opened Ex = ExfatAllocator
  import opened FileMap
  import opened FileBuffer
  import opened FileChain
  import opened FileLayer
  import opened FileSeek
  import opened FileRuns
  import FatRuns

  // ---- a file next to one that is written ----

  /** A cluster in use was not taken by the other file. */
  lemma {:induction false} StillDisjoint(g: Geometry, s: Lazy, was: Tables, now: Tables, free: nat, theirs: seq<nat>,
                                         addrs: seq<nat>, mine: seq<nat>, mine': seq<nat>)
    requires ChainSealed(g, s, was.bits, free, theirs, addrs) && s.tab == was.tab && OwnTables(g, was, now, mine, mine')
    requires Disjoint(theirs, mine)
    ensures Disjoint(theirs, mine')
  {
    assert OpenLinks();
    forall c | c in theirs
      ensures c !in mine'
    {
      var i :| 0 <= i < |theirs| && theirs[i] == c;
      if g.fsType != ExFat { ChainUsed(s.tab, theirs, i); }
      assert !FreeIn(g, was, c);
    }
  }

  lemma IsChainKept(t: seq<nat>, t': seq<nat>, ch: seq<nat>)
    requires IsChain(t, ch) && |t'| == |t| && forall i | 0 <= i < |ch| :: t'[ch[i]] == t[ch[i]]
    ensures IsChain(t', ch)
  {
  }

  /** The chain of a file is as it was after another file changed its own clusters and took free ones. */
  lemma {:induction false} NeighbourChain(g: Geometry, s: Lazy, was: Tables, now: Tables, free: nat, free': nat,
                                          theirs: seq<nat>, addrs: seq<nat>, my: Lazy, mine: seq<nat>, mine': seq<nat>,
                                          myAddrs: seq<nat>)
    requires ChainSealed(g, s, was.bits, free, theirs, addrs) && s.tab == was.tab && OwnTables(g, was, now, mine, mine')
    requires Disjoint(theirs, mine) && ChainSealed(g, my, now.bits, free', mine', myAddrs) && my.tab == now.tab
    ensures Disjoint(theirs, mine') && ChainSealed(g, s.(tab := now.tab), now.bits, free', theirs, addrs) == true
  {
    StillDisjoint(g, s, was, now, free, theirs, addrs, mine, mine');
    assert OpenLinks();
    forall i | 0 <= i < |theirs|
      ensures theirs[i] !in mine' && now.tab[theirs[i]] == was.tab[theirs[i]]
    {
      assert theirs[i] in theirs;
    }
    if theirs != [] {
      if g.fsType == ExFat {
        RepresentsKept(s, now.tab, theirs);
      } else {
        IsChainKept(was.tab, now.tab, theirs);
      }
    }
  }

  /** Files without a common cluster have no common sector. */
  lemma {:induction false} SectorsApart(g: Geometry, a: seq<nat>, b: seq<nat>, q: nat)
    requires InVolume(g, a) && InVolume(g, b) && Disjoint(a, b) && g.csize > 0 && q < |Addrs(g, a)|
    ensures Addrs(g, a)[q] !in Addrs(g, b)
  {
    AddrsSplit(g, a, q);
    forall p | 0 <= p < |Addrs(g, b)|
      ensures Addrs(g, b)[p] != Addrs(g, a)[q]
    {
      AddrsSplit(g, b, p);
      assert a[Quot(q, g.csize)] in a && b[Quot(p, g.csize)] in b;
      ClustersApart(g, a[Quot(q, g.csize)], b[Quot(p, g.csize)]);
    }
  }

  /** `assert OpenOrder();` lets the verifier look at what it takes for a file to be in order. */
  ghost predicate OpenOrder(i: int := 0) {
    true
  }

  /** The file is in order on a volume with this view, these tables and this count of free clusters. */
  ghost predicate InOrder(f: File, view: seq<Sector>, t: Tables, free: nat)
    reads f`fptr, f`clust, f`sect, f`dirty, f`chain, f`addrs, f`secs, f.buf
    reads f.obj`sclust, f.obj`objsize, f.obj`stat, f.obj`nCont, f.obj`nFrag
  {
    forall i {:trigger OpenOrder(i)} :: OpenOrder(i) ==>
      && f.buf != f.obj.fs.win && |f.secs| == |f.addrs| && Placed(f)
      && ChainSealed(f.obj.fs.g, Lazy(t.tab, f.obj.sclust, f.obj.stat, f.obj.nCont, f.obj.nFrag), t.bits, free, f.chain, f.addrs)
      && BufferSealed(f.obj.fs.g, view, t.winsect, f.addrs, f.secs, f.sect, f.dirty, f.buf[..])
  }

  lemma OkInOrder(f: File)
    requires FileOk(f)
    ensures f.buf != f.obj.fs.win && InOrder(f, f.obj.fs.view, TablesOf(f.obj.fs), f.obj.fs.freeClst)
  {
    assert OpenFile();
  }

  lemma InOrderOk(f: File)
    requires f.obj.fs.Valid() && InOrder(f, f.obj.fs.view, TablesOf(f.obj.fs), f.obj.fs.freeClst)
    requires f.mark == Mark(f.obj.fs.view, TablesOf(f.obj.fs), f.chain)
    ensures FileOk(f)
  {
    assert OpenOrder();
  }

  /** What the file did since its mark leaves a file with other clusters in order. */
  lemma NeighbourInOrder(f: File, h: File, free: nat)
    requires FileOk(f) && h.obj.fs == f.obj.fs && InOrder(h, f.mark.view, f.mark.tables, free)
    requires Disjoint(h.chain, f.mark.chain)
    ensures InOrder(h, f.obj.fs.view, TablesOf(f.obj.fs), f.obj.fs.freeClst) && Disjoint(h.chain, f.chain)
  {
    assert OpenOrder();
    OthersKept(f);
    var fs, m := f.obj.fs, f.mark;
    VolumeFacts(fs);
    assert Chained(f) by { assert OpenFile(); }
    NeighbourChain(fs.g, Lazy(m.tables.tab, h.obj.sclust, h.obj.stat, h.obj.nCont, h.obj.nFrag), m.tables, TablesOf(fs),
                   free, fs.freeClst, h.chain, h.addrs, f.obj.Fields(), m.chain, f.chain, f.addrs);
    assert InVolume(fs.g, h.chain) && h.addrs == Addrs(fs.g, h.chain) by { assert OpenLinks(); }
    forall q | 0 <= q < |h.addrs|
      ensures h.addrs[q] !in f.addrs
    {
      SectorsApart(fs.g, h.chain, f.chain, q);
    }
    NeighbourKept(fs.g, m.view, m.tables.winsect, fs.view, fs.winsect, f.addrs, h.addrs, h.secs, h.sect, h.dirty, h.buf[..]);
  }

  // ---- several open files ----

  /** Two open files of one volume share nothing else. */
  ghost predicate Separate(f: File, h: File)
    reads f`chain, h`chain
  {
    f.obj != h.obj && f.buf != h.buf && f.obj.fs == h.obj.fs && Disjoint(f.chain, h.chain)
  }

  ghost predicate AllSeparate(files: set<File>)
    reads files`chain
  {
    forall f, h | f in files && h in files && f != h :: Separate(f, h)
  }

  /** `assert OpenAll();` lets the verifier look at the single files. */
  ghost predicate OpenAll(i: int := 0) {
    true
  }

  /** The invariant of all open files of a volume together. */
  ghost predicate AllOpen(files: set<File>)
    reads files, set f | f in files :: f.obj
    reads set f | f in files :: f.buf
    reads set f | f in files :: f.obj.fs
    reads set f | f in files :: f.obj.fs.win
  {
    forall i {:trigger OpenAll(i)} :: OpenAll(i) ==>
      (forall f | f in files :: FileOk(f) && f.err == Fine) && AllSeparate(files)
  }

  /** The other files are separate from the file, which has `chain`, and in order on the volume with these values. */
  ghost predicate OthersOpen(files: set<File>, f: File, view: seq<Sector>, t: Tables, free: nat, chain: seq<nat>)
    reads files - {f}, set h | h in files && h != f :: h.obj
    reads set h | h in files && h != f :: h.buf
  {
    && (forall h | h in files && h != f ::
          && h.obj != f.obj && h.buf != f.buf && h.obj.fs == f.obj.fs && h.buf != f.obj.fs.win && h.err == Fine
          && Disjoint(h.chain, chain) && InOrder(h, view, t, free))
    && AllSeparate(files - {f})
  }

  /** The other files, after the file did something, on the volume as it is. */
  lemma OthersInOrder(files: set<File>, f: File, free: nat)
    requires f in files && FileOk(f) && OthersOpen(files, f, f.mark.view, f.mark.tables, free, f.mark.chain)
    ensures OthersOpen(files, f, f.obj.fs.view, TablesOf(f.obj.fs), f.obj.fs.freeClst, f.chain)
  {
    forall h | h in files && h != f
      ensures InOrder(h, f.obj.fs.view, TablesOf(f.obj.fs), f.obj.fs.freeClst) && Disjoint(h.chain, f.chain)
    {
      NeighbourInOrder(f, h, free);
    }
  }

  lemma OthersAre(files: set<File>, f: File)
    requires f in files && AllOpen(files)
    ensures FileOk(f) && f.err == Fine
    ensures OthersOpen(files, f, f.obj.fs.view, TablesOf(f.obj.fs), f.obj.fs.freeClst, f.chain) == true
  {
    assert OpenAll();
    forall h | h in files && h != f
      ensures Separate(h, f) && h.buf != f.obj.fs.win && InOrder(h, f.obj.fs.view, TablesOf(f.obj.fs), f.obj.fs.freeClst)
    {
      OkInOrder(h);
    }
  }

  /** Mark the volume as it is for one of the files. */
  ghost method MarkOne(files: set<File>, f: File)
    requires f in files && AllOpen(files)
    modifies f`mark
    ensures FileOk(f) && f.err == Fine && f.mark == Mark(f.obj.fs.view, TablesOf(f.obj.fs), f.chain)
    ensures OthersOpen(files, f, f.mark.view, f.mark.tables, f.obj.fs.freeClst, f.mark.chain) == true
  {
    OthersAre(files, f);
    SetMark(f);
  }

  /** Mark the volume as it is for the others. */
  ghost method MarkOthers(files: set<File>, f: File)
    requires f in files && FileOk(f) && f.err == Fine
    requires OthersOpen(files, f, f.obj.fs.view, TablesOf(f.obj.fs), f.obj.fs.freeClst, f.chain)
    modifies (files - {f})`mark
    ensures AllOpen(files)
  {
    forall h | h in files && h != f {
      h.mark := Mark(f.obj.fs.view, TablesOf(f.obj.fs), h.chain);
    }
    forall h | h in files && h != f
      ensures FileOk(h)
    {
      InOrderOk(h);
    }
  }

  /** An operation on a file just marked, seen from the others. */
  method Act(ghost files: set<File>, f: File, op: Op) returns (done: bool, out: seq<byte>)
    requires f in files && FileOk(f) && f.err == Fine && (op.OpWrite? ==> |op.data| <= 0xFFFF_FFFF)
    requires OthersOpen(files, f, f.mark.view, f.mark.tables, f.obj.fs.freeClst, f.mark.chain)
    modifies f`clust, f`chain, f`addrs, f`sect, f`dirty, f`secs, f.buf, f`fptr, f`err, f`modified
    modifies f.obj`objsize, f.obj`sclust, f.obj`stat, f.obj`nCont, f.obj`nFrag
    modifies f.obj.fs`disk, f.obj.fs`fat2, f.obj.fs`wflag, f.obj.fs`winsect, f.obj.fs`stale, f.obj.fs.win
    modifies f.obj.fs`view, f.obj.fs`tab, f.obj.fs`bits, f.obj.fs`freeClst, f.obj.fs`lastClst, f.obj.fs`fsiDirty
    ensures done ==> FileOk(f) && f.err == Fine && Does(old(Seen(f)), op, out, Seen(f))
    ensures done ==> OthersOpen(files, f, f.obj.fs.view, TablesOf(f.obj.fs), f.obj.fs.freeClst, f.chain)
  {
    ghost var free := f.obj.fs.freeClst;
    done, out := Perform(f, op);
    if done { OthersInOrder(files, f, free); }
  }

  /** An operation on one of the open files: all stay in order, and only that one is seen to change. */
  method PerformAmong(ghost files: set<File>, f: File, op: Op) returns (done: bool, out: seq<byte>)
    requires f in files && AllOpen(files) && (op.OpWrite? ==> |op.data| <= 0xFFFF_FFFF)
    modifies files`mark, f`clust, f`chain, f`addrs, f`sect, f`dirty, f`secs, f.buf, f`fptr, f`err, f`modified
    modifies f.obj`objsize, f.obj`sclust, f.obj`stat, f.obj`nCont, f.obj`nFrag
    modifies f.obj.fs`disk, f.obj.fs`fat2, f.obj.fs`wflag, f.obj.fs`winsect, f.obj.fs`stale, f.obj.fs.win
    modifies f.obj.fs`view, f.obj.fs`tab, f.obj.fs`bits, f.obj.fs`freeClst, f.obj.fs`lastClst, f.obj.fs`fsiDirty
    ensures done ==> AllOpen(files) && Does(old(Seen(f)), op, out, Seen(f))
    ensures done ==> forall h | h in files && h != f :: Seen(h) == old(Seen(h))
  {
    MarkOne(files, f);
    done, out := Act(files, f, op);
    if done { MarkOthers(files, f); }
  }

  lemma OneMore(files: set<File>, f: File)
    requires AllOpen(files) && f !in files && FileOk(f) && f.err == Fine
    requires forall h | h in files :: h.obj != f.obj && h.buf != f.buf && h.obj.fs == f.obj.fs && Disjoint(h.chain, f.chain)
    ensures AllOpen(files + {f})
  {
    assert OpenAll();
    forall h | h in files
      ensures Separate(h, f) && Separate(f, h)
    {
    }
  }

  /** Open one more object of the volume, whose clusters no open file has. */
  method OpenAmong(ghost files: set<File>, obj: ObjectId, canRead: bool, canWrite: bool, ghost chain: seq<nat>)
    returns (f: File)
    requires AllOpen(files) && forall h | h in files :: h.obj != obj && h.obj.fs == obj.fs && Disjoint(h.chain, chain)
    requires obj.fs.Valid() && InVolume(obj.fs.g, chain) && (obj.fs.g.fsType == ExFat ==> obj.nFrag == 0)
    requires ChainSealed(obj.fs.g, obj.Fields(), obj.fs.bits, obj.fs.freeClst, chain, Addrs(obj.fs.g, chain))
    requires AllFileSectors(obj.fs.g, |obj.fs.view|, obj.fs.winsect, Addrs(obj.fs.g, chain))
    requires Fits(obj.fs.g, obj.objsize, |chain|)
    ensures fresh(f) && f.obj == obj && f.chain == chain && AllOpen(files + {f})
    ensures Seen(f) == Plain(Prefix(Flat(Gather(obj.fs.view, Addrs(obj.fs.g, chain))), obj.objsize), 0)
  {
    f := FileSeek.Open(obj, canRead, canWrite, chain);
    OneMore(files, f);
  }

  ghost function SetOf(files: seq<File>): set<File> {
    set f | f in files
  }

  /** A chain of a FAT volume can be that of an open file, while the window shows no data. */
  lemma {:induction false} Openable(g: Geometry, v: seq<Sector>, w: nat, tab: seq<nat>, bits: seq<bool>, free: nat, ch: seq<nat>)
    requires ViewOk(g, v) && g.fsType != ExFat && IsMeta(g, w) && |tab| == g.nFatent && IsChain(tab, ch) && FreeKnown(g, tab, bits, free)
    requires |v| <= NO_SECTOR
    ensures InVolume(g, ch) && ChainSealed(g, Lazy(tab, ch[0], 0, 0, 0), bits, free, ch, Addrs(g, ch)) == true
    ensures AllFileSectors(g, |v|, w, Addrs(g, ch))
  {
    ChainDistinct(tab, ch);
    forall q | 0 <= q < |Addrs(g, ch)|
      ensures FileSector(g, |v|, w, Addrs(g, ch)[q])
    {
      AddrsSplit(g, ch, q);
      TimesMono(g.csize, ch[Quot(q, g.csize)] - 2, g.nFatent - 2);
    }
  }

  /** The file has this chain, starts at the top, and its bytes are the first `size` of those on the volume. */
  ghost predicate OpenedAs(f: File, fs: Volume, chain: seq<nat>, size: nat)
    reads f`chain, f`secs, f`fptr, f.obj`objsize, fs`view
  {
    && f.obj.fs == fs && f.chain == chain && InVolume(fs.g, chain)
    && Seen(f) == Plain(Prefix(Flat(Gather(fs.view, Addrs(fs.g, chain))), size), 0)
  }

  /** Open one more file of a FAT volume. */
  method OpenNext(ghost files: set<File>, fs: Volume, first: nat, size: nat, ghost chain: seq<nat>) returns (f: File)
    requires AllOpen(files) && fs.Valid() && fs.g.fsType != ExFat && IsMeta(fs.g, fs.winsect)
    requires FreeKnown(fs.g, fs.tab, fs.bits, fs.freeClst) && ChainFrom(fs.tab, chain, first) && Fits(fs.g, size, |chain|)
    requires forall h | h in files :: h.obj.fs == fs && Disjoint(h.chain, chain)
    ensures fresh(f) && AllOpen(files + {f}) && OpenedAs(f, fs, chain, size)
  {
    VolumeFacts(fs);
    Openable(fs.g, fs.view, fs.winsect, fs.tab, fs.bits, fs.freeClst, chain);
    var obj := new ObjectId(fs, first, size, 0);
    f := OpenAmong(files, obj, true, true, chain);
  }

  lemma SetOfNext(handles: seq<File>, f: File)
    ensures SetOf(handles + [f]) == SetOf(handles) + {f}
  {
  }

  /** A FAT volume whose files can be opened. */
  ghost predicate Accounted(fs: Volume, chains: seq<seq<nat>>)
    reads fs, fs.win
  {
    && fs.Valid() && fs.g.fsType != ExFat && IsMeta(fs.g, fs.winsect)
    && FreeKnown(fs.g, fs.tab, fs.bits, fs.freeClst)
    && forall i {:trigger OpenAll(i)} :: OpenAll(i) ==> FatRuns.Accounts(fs.tab, chains)
  }

  /** The first files are open. */
  ghost predicate OpenSoFar(handles: seq<File>, fs: Volume, chains: seq<seq<nat>>, sizes: seq<nat>)
    reads handles, set f | f in handles :: f.obj
    reads set f | f in handles :: f.buf
    reads set f | f in handles :: f.obj.fs
    reads set f | f in handles :: f.obj.fs.win
    reads fs
  {
    && |handles| <= |chains| == |sizes| && AllOpen(SetOf(handles))
    && forall j | 0 <= j < |handles| :: OpenedAs(handles[j], fs, chains[j], sizes[j])
  }

  lemma NoneShares(handles: seq<File>, fs: Volume, chains: seq<seq<nat>>, sizes: seq<nat>)
    requires Accounted(fs, chains) && OpenSoFar(handles, fs, chains, sizes) && |handles| < |chains|
    ensures IsChain(fs.tab, chains[|handles|])
    ensures forall h | h in SetOf(handles) :: h.obj.fs == fs && Disjoint(h.chain, chains[|handles|])
  {
    assert OpenAll();
  }

  method OpenStep(ghost handles: seq<File>, fs: Volume, chains: seq<seq<nat>>, sizes: seq<nat>, i: nat) returns (f: File)
    requires Accounted(fs, chains) && OpenSoFar(handles, fs, chains, sizes) && |handles| == i < |chains|
    requires Fits(fs.g, sizes[i], |chains[i]|)
    ensures fresh(f) && OpenSoFar(handles + [f], fs, chains, sizes) == true
  {
    NoneShares(handles, fs, chains, sizes);
    f := OpenNext(SetOf(handles), fs, chains[i][0], sizes[i], chains[i]);
    SetOfNext(handles, f);
  }

  /** Open all files of a FAT volume whose accounts are in order. */
  method OpenEach(fs: Volume, chains: seq<seq<nat>>, sizes: seq<nat>) returns (handles: seq<File>)
    requires Accounted(fs, chains)
    requires |sizes| == |chains| && forall i | 0 <= i < |sizes| :: Fits(fs.g, sizes[i], |chains[i]|)
    ensures |handles| == |chains| && AllOpen(SetOf(handles))
    ensures forall i | 0 <= i < |chains| :: fresh(handles[i]) && OpenedAs(handles[i], fs, chains[i], sizes[i])
  {
    handles := [];
    var i := 0;
    while i < |chains|
      invariant 0 <= i <= |chains| && |handles| == i && OpenSoFar(handles, fs, chains, sizes) == true
      invariant forall j | 0 <= j < i :: fresh(handles[j])
    {
      var f := OpenStep(handles, fs, chains, sizes, i);
      handles, i := handles + [f], i + 1;
    }
  }

  // ---- runs ----

  datatype Call = Call(file: File, op: Op)

  /** The operations of a run that are on `f`. */
  ghost function OpsOf(calls: seq<Call>, f: File): (ops: seq<Op>)
    decreases |calls|
  {
    if calls == [] then []
    else
      var n := |calls| - 1;
      OpsOf(calls[..n], f) + if calls[n].file == f then [calls[n].op] else []
  }

  /** The answers of a run to the operations on `f`. */
  ghost function OutsOf(calls: seq<Call>, outs: seq<seq<byte>>, f: File): (r: seq<seq<byte>>)
    requires |outs| == |calls|
    decreases |calls|
  {
    if calls == [] then []
    else
      var n := |calls| - 1;
      OutsOf(calls[..n], outs[..n], f) + if calls[n].file == f then [outs[n]] else []
  }

  /** One more call: the run of its file is one longer, those of the others are as they were. */
  lemma CallRuns(s: Plain, calls: seq<Call>, outs: seq<seq<byte>>, f: File, m: Plain, call: Call, out: seq<byte>, r: Plain)
    requires |outs| == |calls| && Runs(s, OpsOf(calls, f), OutsOf(calls, outs, f), m)
    requires if call.file == f then Does(m, call.op, out, r) else r == m
    ensures Runs(s, OpsOf(calls + [call], f), OutsOf(calls + [call], outs + [out], f), r)
  {
    var n := |calls|;
    assert (calls + [call])[..n] == calls && (outs + [out])[..n] == outs;
    if call.file == f {
      RunsNext(s, OpsOf(calls, f), OutsOf(calls, outs, f), m, call.op, out, r);
    } else {
      assert OpsOf(calls, f) + [] == OpsOf(calls, f) && OutsOf(calls, outs, f) + [] == OutsOf(calls, outs, f);
    }
  }

  /** What the open files consist of. */
  ghost function Parts(files: set<File>): set<object> {
    files + (set f | f in files :: f.obj) + (set f | f in files :: f.buf)
    + (set f | f in files :: f.obj.fs) + (set f | f in files :: f.obj.fs.win)
  }

  /** `assert OpenRuns();` lets the verifier look at the runs of the single files. */
  ghost predicate OpenRuns(i: int := 0) {
    true
  }

  /** Each file is what its own operations make of what it was. */
  ghost predicate EachRuns(files: set<File>, was: map<File, Plain>, calls: seq<Call>, outs: seq<seq<byte>>)
    requires |outs| == |calls| && was.Keys == files
    reads files`secs, files`fptr, (set f | f in files :: f.obj)`objsize
  {
    forall i {:trigger OpenRuns(i)} :: OpenRuns(i) ==>
      forall f | f in files :: Runs(was[f], OpsOf(calls, f), OutsOf(calls, outs, f), Seen(f))
  }

  lemma NoRuns(files: set<File>, was: map<File, Plain>)
    requires AllOpen(files) && was.Keys == files && forall f | f in files :: was[f] == Seen(f)
    ensures EachRuns(files, was, [], [])
  {
    assert OpenAll();
    forall f | f in files { FileFacts(f); }
  }

  /** The next call of a run. */
  method CallNext(ghost files: set<File>, ghost was: map<File, Plain>, ghost calls: seq<Call>, ghost outs: seq<seq<byte>>,
                  call: Call)
    returns (done: bool, out: seq<byte>)
    requires AllOpen(files) && |outs| == |calls| && was.Keys == files && EachRuns(files, was, calls, outs)
    requires call.file in files && (call.op.OpWrite? ==> |call.op.data| <= 0xFFFF_FFFF)
    modifies Parts(files)
    ensures done ==> AllOpen(files) && EachRuns(files, was, calls + [call], outs + [out])
  {
    done, out := PerformAmong(files, call.file, call.op);
    if done {
      assert OpenRuns();
      forall f | f in files
        ensures Runs(was[f], OpsOf(calls + [call], f), OutsOf(calls + [call], outs + [out], f), Seen(f))
      {
        CallRuns(was[f], calls, outs, f, old(Seen(f)), call, out, Seen(f));
      }
    }
  }

  /**
   Perform calls on any of the open files in any order, up to the first that does not succeed in full. Each file is seen
   to run through its own operations, as if the others were not there.
   */
  method RunAmong(ghost files: set<File>, calls: seq<Call>) returns (done: bool, outs: seq<seq<byte>>)
    requires AllOpen(files)
    requires forall i | 0 <= i < |calls| ::
               calls[i].file in files && (calls[i].op.OpWrite? ==> |calls[i].op.data| <= 0xFFFF_FFFF)
    modifies Parts(files)
    ensures done ==> AllOpen(files) && |outs| == |calls|
    ensures done ==> forall f | f in files :: Runs(old(Seen(f)), OpsOf(calls, f), OutsOf(calls, outs, f), Seen(f))
  {
    outs, done := [], true;
    var i := 0;
    ghost var was := map f | f in files :: Seen(f);
    NoRuns(files, was);
    while i < |calls|
      invariant 0 <= i <= |calls| && |outs| == i && AllOpen(files) && done && EachRuns(files, was, calls[..i], outs)
    {
      var out;
      done, out := CallNext(files, was, calls[..i], outs, calls[i]);
      if !done { return; }
      TakeNext(calls, i);
      outs, i := outs + [out], i + 1;
    }
    assert calls[..i] == calls && OpenRuns();
  }
}
