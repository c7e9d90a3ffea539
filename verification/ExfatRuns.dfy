/**
 Whole runs of the exFAT allocator: whatever is created, stretched, synchronised and removed, the bits that are set are
 exactly the clusters of the objects, and every object stands for its chain.
 */
module ExfatRuns {
  import opened Arith
  import opened FatCodec
  import opened Volumes
  import opened Chains
  import opened ExfatBitmap
  import opened ExfatLazy
  import opened ExfatAllocator
  import opened FileChain
  import FileSeek
  import opened FatRuns

  // ---- the bitmap ----

  /** No two objects share a cluster, and the bits that are set are exactly those of their clusters. */
  ghost predicate BitAccounts(bits: seq<bool>, chains: seq<seq<nat>>) {
    && (forall i | 0 <= i < |chains| :: InUse(bits, chains[i]) && Distinct(chains[i]))
    && (forall i, j | 0 <= i < j < |chains| :: Disjoint(chains[i], chains[j]))
    && (forall b | 0 <= b < |bits| && bits[b] :: Owned(chains, b + 2))
  }

  /** A clear bit is that of no object's cluster. */
  lemma ClearInNone(bits: seq<bool>, ch: seq<nat>, r: nat)
    requires InUse(bits, ch) && r >= 2 && r - 2 in ClearSet(bits)
    ensures r !in ch && Disjoint(ch, [r]) && InUse(bits[r - 2 := true], ch)
  {
  }

  lemma NewBits(bits: seq<bool>, chains: seq<seq<nat>>, r: nat)
    requires BitAccounts(bits, chains) && r >= 2 && r - 2 in ClearSet(bits)
    ensures BitAccounts(bits[r - 2 := true], chains + [[r]])
  {
    var bits', chains' := bits[r - 2 := true], chains + [[r]];
    forall i | 0 <= i < |chains|
      ensures InUse(bits', chains[i]) && Disjoint(chains[i], [r])
    {
      ClearInNone(bits, chains[i], r);
    }
    NewApart(chains, r);
    forall b | 0 <= b < |bits'| && bits'[b]
      ensures Owned(chains', b + 2)
    {
      NewOwns(chains, r, b + 2);
    }
  }

  lemma AppendBits(bits: seq<bool>, chains: seq<seq<nat>>, k: nat, r: nat)
    requires BitAccounts(bits, chains) && r >= 2 && r - 2 in ClearSet(bits) && k < |chains|
    ensures BitAccounts(bits[r - 2 := true], chains[k := chains[k] + [r]])
  {
    var bits', chains' := bits[r - 2 := true], chains[k := chains[k] + [r]];
    forall i | 0 <= i < |chains|
      ensures InUse(bits', chains[i]) && r !in chains[i]
    {
      ClearInNone(bits, chains[i], r);
    }
    InUseAppend(bits, chains[k], r);
    AppendDisjoint(chains, k, r);
    forall b | 0 <= b < |bits'| && bits'[b]
      ensures Owned(chains', b + 2)
    {
      AppendOwns(chains, k, r, b + 2);
    }
  }

  /** What is not of the chain stays in use when the chain is freed. */
  lemma StillInUse(bits: seq<bool>, ch: seq<nat>, o: seq<nat>)
    requires InUse(bits, ch) && InUse(bits, o) && (Disjoint(o, ch) || Disjoint(ch, o))
    ensures InUse(Freed(bits, ch, |ch|), o)
  {
    forall i | 0 <= i < |o|
      ensures Freed(bits, ch, |ch|)[o[i] - 2]
    {
      FreedAt(bits, ch, |ch|, o[i] - 2);
      assert o[i] in o && forall j | 0 <= j < |ch| :: ch[j] in ch;
    }
  }

  lemma DeleteBits(bits: seq<bool>, chains: seq<seq<nat>>, k: nat)
    requires BitAccounts(bits, chains) && k < |chains|
    ensures InUse(bits, chains[k]) && BitAccounts(Freed(bits, chains[k], |chains[k]|), Without(chains, k))
  {
    var ch := chains[k];
    var bits', chains' := Freed(bits, ch, |ch|), Without(chains, k);
    forall i | 0 <= i < |chains'|
      ensures InUse(bits', chains'[i])
    {
      var s := Skip(k, i);
      assert (s < k ==> Disjoint(chains[s], ch)) && (k < s ==> Disjoint(ch, chains[s]));
      StillInUse(bits, ch, chains[s]);
    }
    forall i, j | 0 <= i < j < |chains'|
      ensures Disjoint(chains'[i], chains'[j])
    {
      assert Disjoint(chains[Skip(k, i)], chains[Skip(k, j)]);
    }
    forall b | 0 <= b < |bits'| && bits'[b]
      ensures Owned(chains', b + 2)
    {
      FreedAt(bits, ch, |ch|, b);
      assert b + 2 !in ch;
      DeleteOwns(chains, k, b + 2);
    }
  }

  /** Clusters are neither lost nor counted twice. */
  lemma {:induction false} ConservedBits(bits: seq<bool>, chains: seq<seq<nat>>)
    requires BitAccounts(bits, chains)
    ensures |ClearSet(bits)| + Total(chains) == |bits|
    decreases |chains|
  {
    if chains == [] {
      AllClear(bits);
    } else {
      var k := |chains| - 1;
      DeleteBits(bits, chains, k);
      WithoutLast(chains);
      ConservedBits(Freed(bits, chains[k], |chains[k]|), chains[..k]);
      FreedCount(bits, chains[k], |chains[k]|);
    }
  }

  lemma {:induction false} AllClear(bits: seq<bool>)
    requires forall b | 0 <= b < |bits| :: !bits[b]
    ensures |ClearSet(bits)| == |bits|
  {
    if bits != [] {
      var n := |bits| - 1;
      AllClear(bits[..n]);
      assert ClearSet(bits) == ClearSet(bits[..n]) + {n};
    }
  }

  // ---- the objects ----

  /** `assert OpenStands();` lets the verifier look at what an object has to do with its chain. */
  ghost predicate OpenStands(i: int := 0) {
    true
  }

  /** Fields and FAT stand for the chain, and the size covers it. */
  ghost predicate StandsFor(g: Geometry, s: Lazy, size: nat, ch: seq<nat>) {
    g.ss > 0 && g.csize > 0 && Represents(s, ch) && Covers(s, size > 0, LastOf(g, size), ch)
  }

  ghost predicate Stands(g: Geometry, s: Lazy, size: nat, ch: seq<nat>) {
    forall i {:trigger OpenStands(i)} :: OpenStands(i) ==> StandsFor(g, s, size, ch)
  }

  /** An object stands for its chain while another one changes entries of its own. */
  lemma OtherStands(g: Geometry, s: Lazy, size: nat, ch: seq<nat>, t: seq<nat>, mine: seq<nat>)
    requires Stands(g, s, size, ch) && KeepsOthers(s.tab, t, mine) && (Disjoint(ch, mine) || Disjoint(mine, ch))
    ensures Stands(g, s.(tab := t), size, ch) == true
  {
    assert OpenStands() && OpenOthers();
    forall i | 0 <= i < |ch|
      ensures t[ch[i]] == s.tab[ch[i]]
    {
      assert ch[i] in ch;
    }
    RepresentsKept(s, t, ch);
  }

  /** Bytes of a cluster. */
  function ClusterBytes(g: Geometry): nat {
    Times(g.ss, g.csize)
  }

  /** A size that ends in the last of `n` clusters covers them. */
  lemma SizeCovers(fs: Volume, s: Lazy, ch: seq<nat>, tail: nat)
    requires fs.Valid() && fs.g.fsType == ExFat && InUse(fs.bits, ch) && Distinct(ch) && Represents(s, ch)
    requires 1 <= tail <= ClusterBytes(fs.g)
    ensures Stands(fs.g, s, Room(fs.g, |ch| - 1) + tail, ch) == true
  {
    VolumeFacts(fs);
    assert |fs.bits| == fs.g.nFatent - 2 by { assert OpenTables(); }
    FreedCount(fs.bits, ch, |ch|);
    TimesMono(fs.g.csize, |ch|, fs.g.nFatent - 2);
    FileSeek.RoomStep(fs.g, |ch| - 1);
    LastIs(fs.g, Room(fs.g, |ch| - 1) + tail, |ch|);
  }

  /** One more cluster for an object, or its first one. `tail` bytes of it are used. */
  method StretchObject(fs: Volume, obj: ObjectId, ch: seq<nat>, tail: nat) returns (out: Outcome, r: nat)
    requires fs.Valid() && fs.g.fsType == ExFat && FreeCountKnown(fs) && obj.fs == fs && 1 <= tail <= ClusterBytes(fs.g)
    requires InUse(fs.bits, ch) && Distinct(ch)
    requires if ch == [] then obj.nFrag == 0 else Stands(fs.g, obj.Fields(), obj.objsize, ch)
    modifies obj, fs`disk, fs`fat2, fs`wflag, fs`winsect, fs`stale, fs.win
    modifies fs`view, fs`tab, fs`bits, fs`freeClst, fs`lastClst, fs`fsiDirty
    ensures fs.Valid() && (out != Failed ==> FreeCountKnown(fs))
    ensures out == Full ==> ClearSet(fs.bits) == {} && fs.bits == old(fs.bits) && obj.Fields() == old(obj.Fields())
                            && obj.objsize == old(obj.objsize)
    ensures out == Done ==> r >= 2 && r - 2 in ClearSet(old(fs.bits)) && fs.bits == old(fs.bits)[r - 2 := true]
    ensures out == Done ==>
              Stands(fs.g, obj.Fields(), obj.objsize, ch + [r]) == true && KeepsOthers(old(fs.tab), fs.tab, ch) == true
    ensures Counts(fs.g, fs.freeClst) <==> old(Counts(fs.g, fs.freeClst))
  {
    VolumeFacts(fs);
    var clst := if ch == [] then 0 else ch[|ch| - 1];
    ghost var bits := fs.bits;
    if ch != [] { StandsReady(obj, ch); }
    r := CreateChain(obj, clst, ch, if ch == [] then 0 else |ch| - 1);
    if r == 0 { return Full, r; }
    if r == DISK_ERROR { return Failed, r; }
    if clst == 0 { obj.sclust := r; }
    InUseAppend(bits, ch, r);
    obj.objsize := Times(fs.g.ss, Times(fs.g.csize, |ch|)) + tail;
    SizeCovers(fs, obj.Fields(), ch + [r], tail);
    out := Done;
  }

  lemma StandsReady(obj: ObjectId, ch: seq<nat>)
    requires obj.fs.g.ss > 0 && obj.fs.g.csize > 0 && InUse(obj.fs.bits, ch) && ch != []
    requires Stands(obj.fs.g, obj.Fields(), obj.objsize, ch)
    ensures Ready(obj, ch, ch[|ch| - 1], |ch| - 1) && ch[|ch| - 1] >= 2
  {
    assert OpenStands();
  }

  lemma KeepsBoth(t: seq<nat>, t1: seq<nat>, t2: seq<nat>, ch: seq<nat>)
    requires KeepsOthers(t, t1, ch) && KeepsOthers(t1, t2, ch)
    ensures KeepsOthers(t, t2, ch) == true
  {
    assert OpenOthers();
  }

  lemma SettledFirst(g: Geometry, s: Lazy, size: nat, ch: seq<nat>)
    requires Stands(g, s, size, ch)
    ensures s.stat == 3 ==> 2 <= s.sclust && s.sclust + s.nCont <= |s.tab|
    ensures Stands(g, FillFirst(s), size, ch) == true && KeepsOthers(s.tab, FillFirst(s).tab, ch) == true
    ensures FillFirst(s).nFrag == s.nFrag && |FillFirst(s).tab| == |s.tab|
  {
    assert OpenStands();
    FillFirstRepresents(s, ch);
    FillFirstKeeps(s, ch);
    assert OpenOthers();
  }

  lemma SettledLast(g: Geometry, s: Lazy, size: nat, ch: seq<nat>)
    requires Stands(g, s, size, ch) && |s.tab| <= EOC
    ensures ch != [] && s.nFrag < ch[|ch| - 1] < |s.tab|
    ensures Stands(g, FillLast(s, ch[|ch| - 1], EOC), size, ch) == true
    ensures KeepsOthers(s.tab, FillLast(s, ch[|ch| - 1], EOC).tab, ch) == true
  {
    assert OpenStands();
    GrowStrict(s, ch);
    FillLastRepresents(s, ch);
    FillLastKeeps(s, ch, EOC);
  }

  /** Put all links of the object on the FAT, as closing it does. */
  method SettleObject(fs: Volume, obj: ObjectId, ch: seq<nat>) returns (res: Status)
    requires fs.Valid() && fs.g.fsType == ExFat && obj.fs == fs && Stands(fs.g, obj.Fields(), obj.objsize, ch)
    modifies obj`stat, obj`nFrag, fs`disk, fs`fat2, fs`wflag, fs`winsect, fs`stale, fs.win, fs`view, fs`tab
    ensures fs.Valid() && res in {Fine, DiskErr}
    ensures res == Fine ==>
              && Stands(fs.g, obj.Fields(), obj.objsize, ch) == true && obj.nFrag == 0
              && KeepsOthers(old(fs.tab), fs.tab, ch) == true
  {
    ghost var s := obj.Fields();
    assert |fs.tab| == fs.g.nFatent <= EOC by { VolumeFacts(fs); assert OpenTables(); }
    SettledFirst(fs.g, s, obj.objsize, ch);
    res := FillFirstFrag(obj);
    if res != Fine { return; }
    ghost var s1 := obj.Fields();
    SettledLast(fs.g, s1, obj.objsize, ch);
    res := FillLastFrag(obj, ch[|ch| - 1], END_OF_CHAIN);
    if res == Fine { KeepsBoth(s.tab, s1.tab, fs.tab, ch); }
  }

  lemma StandsSound(obj: ObjectId, ch: seq<nat>)
    requires obj.fs.g.ss > 0 && obj.fs.g.csize > 0 && Stands(obj.fs.g, obj.Fields(), obj.objsize, ch) && obj.nFrag == 0
    requires |obj.fs.tab| == obj.fs.g.nFatent <= EOC
    ensures Represents(obj.Fields(), ch) && Covers(obj.Fields(), obj.objsize > 0, LastOf(obj.fs.g, obj.objsize), ch)
    ensures 2 <= ch[|ch| - 1] < obj.fs.g.nFatent
    ensures EndValue(obj, ch) == ch[|ch| - 1] + 1 ==> ch[|ch| - 1] + 1 == obj.fs.g.nFatent
  {
    assert OpenStands();
    EndIsNext(obj.Fields(), obj.objsize > 0, LastOf(obj.fs.g, obj.objsize), ch);
  }

  /**
   Close the object and remove its chain. The end of the chain is looked at first, so that a run can tell that it reads
   as one more cluster and the last block stays in use.
   */
  method RemoveObject(fs: Volume, obj: ObjectId, ch: seq<nat>) returns (res: Status, leaked: bool)
    requires fs.Valid() && fs.g.fsType == ExFat && FreeCountKnown(fs) && obj.fs == fs
    requires Stands(fs.g, obj.Fields(), obj.objsize, ch) && InUse(fs.bits, ch)
    modifies obj`stat, obj`nFrag, fs`disk, fs`fat2, fs`wflag, fs`winsect, fs`stale, fs.win
    modifies fs`view, fs`tab, fs`bits, fs`freeClst, fs`fsiDirty
    ensures fs.Valid() && res in {Fine, DiskErr}
    ensures res == Fine ==> KeepsOthers(old(fs.tab), fs.tab, ch) == true
    ensures res == Fine && !leaked ==> fs.bits == Freed(old(fs.bits), ch, |ch|) && FreeCountKnown(fs)
    ensures res == Fine && leaked ==> ch != [] && ch[|ch| - 1] + 1 == fs.g.nFatent && fs.bits[ch[|ch| - 1] - 2]
    ensures Counts(fs.g, fs.freeClst) <==> old(Counts(fs.g, fs.freeClst))
  {
    leaked := false;
    res := SettleObject(fs, obj, ch);
    if res != Fine { return; }
    VolumeFacts(fs);
    assert |fs.tab| == fs.g.nFatent <= EOC by { assert OpenTables(); }
    StandsSound(obj, ch);
    var end := GetFat(obj, ch[|ch| - 1]);
    if end == DISK_ERROR { return DiskErr, false; }
    leaked := end == ch[|ch| - 1] + 1;
    res := RemoveChain(obj, ch[0], ch);
  }

  // ---- runs ----

  datatype ExOp = Alloc(op: AllocOp, tail: nat) | Settle(obj: nat)

  /** The object stands for the chain with this FAT. */
  ghost predicate StandsOn(g: Geometry, obj: ObjectId, tab: seq<nat>, ch: seq<nat>)
    reads obj
  {
    Stands(g, Lazy(tab, obj.sclust, obj.stat, obj.nCont, obj.nFrag), obj.objsize, ch) == true
  }

  ghost predicate AllStand(fs: Volume, objs: seq<ObjectId>, chains: seq<seq<nat>>)
    reads objs, fs`tab
  {
    && |objs| == |chains| && (forall i, j | 0 <= i < j < |objs| :: objs[i] != objs[j])
    && forall i | 0 <= i < |objs| :: objs[i].fs == fs && StandsOn(fs.g, objs[i], fs.tab, chains[i])
  }

  /** `assert OpenBooks();` lets the verifier look at whose the clusters are. */
  ghost predicate OpenBooks(i: int := 0) {
    true
  }

  ghost predicate Books(bits: seq<bool>, chains: seq<seq<nat>>) {
    forall i {:trigger OpenBooks(i)} :: OpenBooks(i) ==> BitAccounts(bits, chains)
  }

  /** The volume is in order, and its objects stand for chains that have all the clusters in use. */
  ghost predicate InOrder(fs: Volume, objs: seq<ObjectId>, chains: seq<seq<nat>>)
    reads fs, fs.win, objs
  {
    && fs.Valid() && fs.g.fsType == ExFat && FreeCountKnown(fs)
    && Books(fs.bits, chains) == true && AllStand(fs, objs, chains) == true
  }

  lemma BooksAt(bits: seq<bool>, chains: seq<seq<nat>>, k: nat)
    requires Books(bits, chains) && k < |chains|
    ensures InUse(bits, chains[k]) && Distinct(chains[k])
    ensures forall i | 0 <= i < |chains| && i != k :: Disjoint(chains[i], chains[k]) || Disjoint(chains[k], chains[i])
  {
    assert OpenBooks();
    forall i | 0 <= i < |chains| && i != k
      ensures Disjoint(chains[i], chains[k]) || Disjoint(chains[k], chains[i])
    {
      if i < k { assert Disjoint(chains[i], chains[k]); } else { assert Disjoint(chains[k], chains[i]); }
    }
  }

  lemma BooksNew(bits: seq<bool>, chains: seq<seq<nat>>, r: nat)
    requires Books(bits, chains) && r >= 2 && r - 2 in ClearSet(bits)
    ensures Books(bits[r - 2 := true], chains + [[r]]) == true
  {
    assert OpenBooks();
    NewBits(bits, chains, r);
  }

  lemma BooksAppend(bits: seq<bool>, chains: seq<seq<nat>>, k: nat, r: nat)
    requires Books(bits, chains) && r >= 2 && r - 2 in ClearSet(bits) && k < |chains|
    ensures Books(bits[r - 2 := true], chains[k := chains[k] + [r]]) == true
  {
    assert OpenBooks();
    AppendBits(bits, chains, k, r);
  }

  lemma BooksDelete(bits: seq<bool>, chains: seq<seq<nat>>, k: nat)
    requires Books(bits, chains) && k < |chains|
    ensures InUse(bits, chains[k]) && Books(Freed(bits, chains[k], |chains[k]|), Without(chains, k)) == true
  {
    assert OpenBooks();
    DeleteBits(bits, chains, k);
  }

  /** The other objects still stand for their chains, while the one at `k`, if any, has the clusters `mine`. */
  lemma OthersStand(g: Geometry, objs: seq<ObjectId>, chains: seq<seq<nat>>, t: seq<nat>, t': seq<nat>, mine: seq<nat>, k: nat)
    requires |objs| == |chains| && KeepsOthers(t, t', mine)
    requires forall i | 0 <= i < |objs| && i != k :: StandsOn(g, objs[i], t, chains[i])
    requires forall i | 0 <= i < |chains| && i != k :: Disjoint(chains[i], mine) || Disjoint(mine, chains[i])
    ensures forall i | 0 <= i < |objs| && i != k :: StandsOn(g, objs[i], t', chains[i])
  {
    forall i | 0 <= i < |objs| && i != k
      ensures StandsOn(g, objs[i], t', chains[i])
    {
      var o := objs[i];
      OtherStands(g, Lazy(t, o.sclust, o.stat, o.nCont, o.nFrag), o.objsize, chains[i], t', mine);
    }
  }

  /** A new object with one cluster. */
  method AddObject(fs: Volume, objs: seq<ObjectId>, chains: seq<seq<nat>>, tail: nat)
    returns (out: Outcome, obj: ObjectId, r: nat)
    requires InOrder(fs, objs, chains) && 1 <= tail <= ClusterBytes(fs.g)
    modifies fs, fs.win
    ensures fs.Valid() && fresh(obj)
    ensures out == Full ==> InOrder(fs, objs, chains) && ClearSet(fs.bits) == {}
    ensures out == Done ==> InOrder(fs, objs + [obj], chains + [[r]])
    ensures Counts(fs.g, fs.freeClst) <==> old(Counts(fs.g, fs.freeClst))
  {
    obj := new ObjectId(fs, 0, 0, 0);
    ghost var bits, tab := fs.bits, fs.tab;
    out, r := StretchObject(fs, obj, [], tail);
    if out == Done {
      OthersStand(fs.g, objs, chains, tab, fs.tab, [], |objs|);
      BooksNew(bits, chains, r);
      assert [] + [r] == [r];
    }
  }

  lemma SomeCluster(g: Geometry, s: Lazy, size: nat, ch: seq<nat>)
    requires Stands(g, s, size, ch)
    ensures ch != []
  {
    assert OpenStands();
  }

  /** One more cluster for object `k`. */
  method GrowObject(fs: Volume, objs: seq<ObjectId>, chains: seq<seq<nat>>, k: nat, tail: nat) returns (out: Outcome, r: nat)
    requires InOrder(fs, objs, chains) && k < |objs| && 1 <= tail <= ClusterBytes(fs.g)
    modifies objs[k], fs, fs.win
    ensures fs.Valid()
    ensures out == Full ==> InOrder(fs, objs, chains) && ClearSet(fs.bits) == {}
    ensures out == Done ==> InOrder(fs, objs, chains[k := chains[k] + [r]])
    ensures Counts(fs.g, fs.freeClst) <==> old(Counts(fs.g, fs.freeClst))
  {
    BooksAt(fs.bits, chains, k);
    ghost var bits, tab := fs.bits, fs.tab;
    SomeCluster(fs.g, objs[k].Fields(), objs[k].objsize, chains[k]);
    out, r := StretchObject(fs, objs[k], chains[k], tail);
    if out == Done {
      OthersStand(fs.g, objs, chains, tab, fs.tab, chains[k], k);
      BooksAppend(bits, chains, k, r);
    }
  }

  /** Object `k` is synchronised. */
  method SettleAt(fs: Volume, objs: seq<ObjectId>, chains: seq<seq<nat>>, k: nat) returns (res: Status)
    requires InOrder(fs, objs, chains) && k < |objs|
    modifies objs[k], fs, fs.win
    ensures fs.Valid()
    ensures res == Fine ==> InOrder(fs, objs, chains) && objs[k].nFrag == 0
    ensures Counts(fs.g, fs.freeClst) <==> old(Counts(fs.g, fs.freeClst))
  {
    BooksAt(fs.bits, chains, k);
    ghost var tab := fs.tab;
    res := SettleObject(fs, objs[k], chains[k]);
    if res == Fine { OthersStand(fs.g, objs, chains, tab, fs.tab, chains[k], k); }
  }

  /** Object `k` is removed. */
  method RemoveAt(fs: Volume, objs: seq<ObjectId>, chains: seq<seq<nat>>, k: nat) returns (res: Status, leaked: bool)
    requires InOrder(fs, objs, chains) && k < |objs|
    modifies objs[k], fs, fs.win
    ensures fs.Valid()
    ensures res == Fine && !leaked ==> InOrder(fs, Without(objs, k), Without(chains, k))
    ensures res == Fine && leaked ==> chains[k] != [] && chains[k][|chains[k]| - 1] + 1 == fs.g.nFatent
    ensures Counts(fs.g, fs.freeClst) <==> old(Counts(fs.g, fs.freeClst))
  {
    BooksAt(fs.bits, chains, k);
    BooksDelete(fs.bits, chains, k);
    ghost var tab := fs.tab;
    res, leaked := RemoveObject(fs, objs[k], chains[k]);
    if res == Fine { OthersStand(fs.g, objs, chains, tab, fs.tab, chains[k], k); }
  }

  /** The operation names an object there is. */
  predicate Possible(op: ExOp, chains: seq<seq<nat>>) {
    match op
    case Alloc(a, _) => Applies(a, chains)
    case Settle(k) => k < |chains|
  }

  /** What an operation leaves of the chains: those of `create_chain` and `remove_chain` as on FAT, no change otherwise. */
  ghost predicate Brings(op: ExOp, clusters: nat, chains: seq<seq<nat>>, chains': seq<seq<nat>>) {
    match op
    case Alloc(a, _) => Leaves(a, clusters, chains, chains')
    case Settle(_) => chains' == chains
  }

  /** One operation that applies. */
  method PerformEx(fs: Volume, objs: seq<ObjectId>, chains: seq<seq<nat>>, op: ExOp)
    returns (failed: bool, leaked: bool, objs': seq<ObjectId>, chains': seq<seq<nat>>)
    requires InOrder(fs, objs, chains) && Possible(op, chains) && (op.Alloc? ==> 1 <= op.tail <= ClusterBytes(fs.g))
    modifies objs, fs, fs.win
    ensures fs.Valid() && forall k | 0 <= k < |objs'| :: objs'[k] in objs || fresh(objs'[k])
    ensures !failed && !leaked ==> InOrder(fs, objs', chains') && Brings(op, fs.g.nFatent - 2, chains, chains')
    ensures leaked ==> op.Alloc? && op.op.Delete? && EndsLast(fs.g, chains, op.op.file)
    ensures Counts(fs.g, fs.freeClst) <==> old(Counts(fs.g, fs.freeClst))
  {
    failed, leaked, objs', chains' := false, false, objs, chains;
    match op {
      case Settle(k) =>
        var res := SettleAt(fs, objs, chains, k);
        failed := res != Fine;
      case Alloc(a, tail) =>
        match a {
          case Delete(k) =>
            var res;
            res, leaked := RemoveAt(fs, objs, chains, k);
            failed := res != Fine;
            if failed { leaked := false; }
            objs', chains' := Without(objs, k), Without(chains, k);
          case Append(k) =>
            var out, r := GrowObject(fs, objs, chains, k, tail);
            failed := out == Failed;
            if out == Done { chains' := chains[k := chains[k] + [r]]; }
            if out == FatRuns.Outcome.Full { FullTotal(fs, chains); }
          case NewFile =>
            var out, obj, r := AddObject(fs, objs, chains, tail);
            failed := out == Failed;
            if out == Done { objs', chains' := objs + [obj], chains + [[r]]; }
            if out == FatRuns.Outcome.Full { FullTotal(fs, chains); }
        }
    }
  }

  /** The last cluster of the chain is the last of the volume. */
  ghost predicate EndsLast(g: Geometry, chains: seq<seq<nat>>, k: nat) {
    k < |chains| && chains[k] != [] && chains[k][|chains[k]| - 1] + 1 == g.nFatent
  }

  /** Without a clear bit the objects have all clusters. */
  lemma FullTotal(fs: Volume, chains: seq<seq<nat>>)
    requires fs.Valid() && fs.g.fsType == ExFat && Books(fs.bits, chains) && ClearSet(fs.bits) == {}
    ensures Total(chains) == fs.g.nFatent - 2
  {
    assert OpenBooks();
    ConservedBits(fs.bits, chains);
    assert |fs.bits| == fs.g.nFatent - 2 by { assert OpenTables(); }
  }

  ghost predicate ExHistory(hist: seq<seq<seq<nat>>>, clusters: nat, ops: seq<ExOp>) {
    && |hist| == |ops| + 1
    && forall k | 0 <= k < |ops| ::
         if Possible(ops[k], hist[k]) then Brings(ops[k], clusters, hist[k], hist[k + 1]) else hist[k + 1] == hist[k]
  }

  lemma ExHistoryNext(hist: seq<seq<seq<nat>>>, clusters: nat, ops: seq<ExOp>, i: nat, now: seq<seq<nat>>)
    requires i < |ops| && ExHistory(hist, clusters, ops[..i])
    requires if Possible(ops[i], hist[i]) then Brings(ops[i], clusters, hist[i], now) else now == hist[i]
    ensures ExHistory(hist + [now], clusters, ops[..i + 1])
  {
    forall k | 0 <= k <= i
      ensures ops[..i + 1][k] == ops[k] && (k < i ==> ops[..i][k] == ops[k])
    {
    }
  }

  /**
   Any run of operations up to the first disk error, or up to the removal of an object whose end reads as the number
   after the last cluster of the volume. The objects stand for the chains that the operations leave, and the bits that
   are set are exactly those of their clusters.
   */
  method RunEx(fs: Volume, objs: seq<ObjectId>, chains: seq<seq<nat>>, ops: seq<ExOp>)
    returns (failed: bool, leaked: bool, objs': seq<ObjectId>, chains': seq<seq<nat>>, ghost hist: seq<seq<seq<nat>>>)
    requires InOrder(fs, objs, chains)
    requires forall i | 0 <= i < |ops| && ops[i].Alloc? :: 1 <= ops[i].tail <= ClusterBytes(fs.g)
    modifies objs, fs, fs.win
    ensures fs.Valid()
    ensures !failed && !leaked ==>
              && InOrder(fs, objs', chains') && ExHistory(hist, fs.g.nFatent - 2, ops)
              && hist[0] == chains && hist[|ops|] == chains'
    ensures !failed && !leaked ==>
              BitAccounts(fs.bits, chains') && |ClearSet(fs.bits)| + Total(chains') == fs.g.nFatent - 2
    ensures !failed && !leaked && old(Counts(fs.g, fs.freeClst)) ==> fs.freeClst + Total(chains') == fs.g.nFatent - 2
    ensures leaked ==> exists i | 0 <= i < |ops| && i < |hist| ::
              ops[i].Alloc? && ops[i].op.Delete? && EndsLast(fs.g, hist[i], ops[i].op.file)
    ensures Counts(fs.g, fs.freeClst) <==> old(Counts(fs.g, fs.freeClst))
  {
    ghost var n := fs.g.nFatent - 2;
    failed, leaked, objs', chains', hist := false, false, objs, chains, [chains];
    var i := 0;
    while i < |ops|
      invariant 0 <= i <= |ops| && !failed && !leaked && InOrder(fs, objs', chains') == true
      invariant Counts(fs.g, fs.freeClst) <==> old(Counts(fs.g, fs.freeClst))
      invariant forall k | 0 <= k < |objs'| :: objs'[k] in objs || fresh(objs'[k])
      invariant |hist| == i + 1 && hist[0] == chains && hist[i] == chains' && ExHistory(hist, n, ops[..i])
    {
      if Possible(ops[i], chains') {
        failed, leaked, objs', chains' := PerformEx(fs, objs', chains', ops[i]);
        if failed || leaked { return; }
      }
      ExHistoryNext(hist, n, ops, i, chains');
      hist, i := hist + [chains'], i + 1;
    }
    assert ops[..i] == ops && OpenBooks();
    ConservedBits(fs.bits, chains');
    assert |fs.bits| == fs.g.nFatent - 2 by { assert OpenTables(); }
  }
}
