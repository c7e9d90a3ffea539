/**
 Whole runs of the FAT allocator: whatever is created, stretched and removed, the chains of the files are disjoint,
 no cluster is lost, and the free count is right.
 */
module FatRuns {
  import opened FatCodec
  import opened Volumes
  import opened Chains
  import opened FatAllocator

  /** Every file has its chain, no two files share a cluster, and every cluster in use belongs to a file. */
  ghost predicate Accounts(t: seq<nat>, files: seq<seq<nat>>) {
    && (forall i | 0 <= i < |files| :: IsChain(t, files[i]))
    && (forall i, j | 0 <= i < j < |files| :: Disjoint(files[i], files[j]))
    && (forall c | 2 <= c < |t| && t[c] != 0 :: Owned(files, c))
  }

  ghost predicate Owned(files: seq<seq<nat>>, c: nat) {
    exists i | 0 <= i < |files| :: c in files[i]
  }

  function Last(ch: seq<nat>): nat
    requires ch != []
  {
    ch[|ch| - 1]
  }

  /** A free cluster is in no chain. */
  lemma FreeInNone(t: seq<nat>, ch: seq<nat>, r: nat)
    requires IsChain(t, ch) && r in FreeSet(t)
    ensures r !in ch
  {
    forall i | 0 <= i < |ch|
      ensures ch[i] != r
    {
      ChainUsed(t, ch, i);
    }
  }

  lemma NewAccounts(t: seq<nat>, files: seq<seq<nat>>, r: nat, eoc: nat)
    requires Accounts(t, files) && r in FreeSet(t) && eoc >= |t|
    ensures Accounts(Stretched(t, 0, r, eoc), files + [[r]])
  {
    var t', files' := Stretched(t, 0, r, eoc), files + [[r]];
    forall i | 0 <= i < |files|
      ensures IsChain(t', files'[i]) && Disjoint(files[i], [r])
    {
      ZeroNotIn(t, files[i]);
      StretchedOther(t, 0, r, eoc, files[i]);
      FreeInNone(t, files[i], r);
    }
    assert IsChain(t', [r]);
    NewApart(files, r);
    forall c | 2 <= c < |t'| && t'[c] != 0
      ensures Owned(files', c)
    {
      NewOwns(files, r, c);
    }
  }

  lemma NewApart(files: seq<seq<nat>>, r: nat)
    requires forall i | 0 <= i < |files| :: Disjoint(files[i], [r])
    requires forall i, j | 0 <= i < j < |files| :: Disjoint(files[i], files[j])
    ensures var files' := files + [[r]]; forall i, j | 0 <= i < j < |files'| :: Disjoint(files'[i], files'[j])
  {
  }

  lemma NewOwns(files: seq<seq<nat>>, r: nat, c: nat)
    requires c == r || Owned(files, c)
    ensures Owned(files + [[r]], c)
  {
    var files' := files + [[r]];
    if c == r {
      assert c in files'[|files|];
    } else {
      var i :| 0 <= i < |files| && c in files[i];
      assert c in files'[i];
    }
  }

  lemma ZeroNotIn(t: seq<nat>, ch: seq<nat>)
    requires IsChain(t, ch)
    ensures 0 !in ch
  {
  }

  lemma AppendAccounts(t: seq<nat>, files: seq<seq<nat>>, k: nat, r: nat, eoc: nat)
    requires Accounts(t, files) && r in FreeSet(t) && eoc >= |t| && k < |files|
    ensures files[k] != [] && 2 <= Last(files[k]) < |t|
    ensures Accounts(Stretched(t, Last(files[k]), r, eoc), files[k := files[k] + [r]])
  {
    assert IsChain(t, files[k]);
    var t', files' := Stretched(t, Last(files[k]), r, eoc), files[k := files[k] + [r]];
    forall i | 0 <= i < |files|
      ensures IsChain(t', files'[i]) && (i != k ==> r !in files[i])
    {
      assert (i < k ==> Disjoint(files[i], files[k])) && (k < i ==> Disjoint(files[k], files[i]));
      AppendChain(t, files[k], r, eoc, files[i], i == k);
    }
    AppendDisjoint(files, k, r);
    forall c | 2 <= c < |t'| && t'[c] != 0
      ensures Owned(files', c)
    {
      assert c == r || Owned(files, c);
      AppendOwns(files, k, r, c);
    }
  }

  lemma AppendChain(t: seq<nat>, ch: seq<nat>, r: nat, eoc: nat, o: seq<nat>, same: bool)
    requires IsChain(t, ch) && IsChain(t, o) && r in FreeSet(t) && eoc >= |t|
    requires if same then o == ch else Disjoint(ch, o) || Disjoint(o, ch)
    ensures IsChain(Stretched(t, Last(ch), r, eoc), if same then ch + [r] else o)
    ensures r !in o
  {
    FreeInNone(t, o, r);
    if same {
      StretchedChain(t, ch, r, eoc);
    } else {
      assert Last(ch) in ch;
      StretchedOther(t, Last(ch), r, eoc, o);
    }
  }

  lemma AppendDisjoint(files: seq<seq<nat>>, k: nat, r: nat)
    requires k < |files| && forall i | 0 <= i < |files| && i != k :: r !in files[i]
    requires forall i, j | 0 <= i < j < |files| :: Disjoint(files[i], files[j])
    ensures var files' := files[k := files[k] + [r]]; forall i, j | 0 <= i < j < |files| ::
              Disjoint(files'[i], files'[j])
  {
    var files' := files[k := files[k] + [r]];
    forall i, j | 0 <= i < j < |files|
      ensures Disjoint(files'[i], files'[j])
    {
      assert Disjoint(files[i], files[j]);
      forall c | c in files'[i]
        ensures c !in files'[j]
      {
        assert c == r || c in files[i];
      }
    }
  }

  lemma AppendOwns(files: seq<seq<nat>>, k: nat, r: nat, c: nat)
    requires k < |files| && (c == r || Owned(files, c))
    ensures Owned(files[k := files[k] + [r]], c)
  {
    var files' := files[k := files[k] + [r]];
    if c == r {
      assert c in files'[k];
    } else {
      var i :| 0 <= i < |files| && c in files[i];
      assert c in files'[i];
    }
  }

  function Skip(k: nat, i: nat): nat {
    if i < k then i else i + 1
  }

  function Without<T>(files: seq<T>, k: nat): (r: seq<T>)
    requires k < |files|
    ensures |r| == |files| - 1 && forall i | 0 <= i < |r| :: r[i] == files[Skip(k, i)]
  {
    seq(|files| - 1, i requires 0 <= i < |files| - 1 => files[Skip(k, i)])
  }

  lemma DeleteAccounts(t: seq<nat>, files: seq<seq<nat>>, k: nat)
    requires Accounts(t, files) && k < |files|
    ensures Accounts(Cleared(t, files[k]), Without(files, k))
  {
    var t', files' := Cleared(t, files[k]), Without(files, k);
    forall i | 0 <= i < |files'|
      ensures IsChain(t', files'[i])
    {
      var s := Skip(k, i);
      assert (s < k ==> Disjoint(files[s], files[k])) && (k < s ==> Disjoint(files[k], files[s]));
      ClearedOther(t, files[k], files[s]);
    }
    forall i, j | 0 <= i < j < |files'|
      ensures Disjoint(files'[i], files'[j])
    {
      assert Disjoint(files[Skip(k, i)], files[Skip(k, j)]);
    }
    forall c | 2 <= c < |t'| && t'[c] != 0
      ensures Owned(files', c)
    {
      assert Owned(files, c);
      DeleteOwns(files, k, c);
    }
  }

  lemma DeleteOwns(files: seq<seq<nat>>, k: nat, c: nat)
    requires k < |files| && Owned(files, c) && c !in files[k]
    ensures Owned(Without(files, k), c)
  {
    var i :| 0 <= i < |files| && c in files[i];
    assert c in Without(files, k)[if i < k then i else i - 1];
  }

  // ---- counting ----

  function Total(files: seq<seq<nat>>): nat {
    if files == [] then 0 else Total(files[..|files| - 1]) + |files[|files| - 1]|
  }

  ghost function Elements(ch: seq<nat>): set<nat> {
    set c | c in ch
  }

  /** Clusters are neither lost nor counted twice: the files' clusters and the free ones make up the volume. */
  lemma {:induction false} Conserved(t: seq<nat>, files: seq<seq<nat>>)
    requires Accounts(t, files) && |t| >= 2
    ensures |FreeSet(t)| + Total(files) == |t| - 2
    decreases |files|
  {
    if files == [] {
      assert UsedSet(t) == {};
      FreePlusUsed(t);
    } else {
      var k := |files| - 1;
      DeleteAccounts(t, files, k);
      WithoutLast(files);
      Conserved(Cleared(t, files[k]), files[..k]);
      GivenBack(t, files[k]);
    }
  }

  lemma WithoutLast(files: seq<seq<nat>>)
    requires files != []
    ensures Without(files, |files| - 1) == files[..|files| - 1]
  {
  }

  /** Removing a chain frees as many clusters as it has. */
  lemma GivenBack(t: seq<nat>, ch: seq<nat>)
    requires IsChain(t, ch)
    ensures |FreeSet(Cleared(t, ch))| == |FreeSet(t)| + |ch|
  {
    ClearedFree(t, ch);
    ChainDistinct(t, ch);
    DistinctSize(ch);
    assert FreeSet(Cleared(t, ch)) == FreeSet(t) + Elements(ch) && FreeSet(t) !! Elements(ch);
  }

  lemma {:induction false} DistinctSize(s: seq<nat>)
    requires forall i, j | 0 <= i < j < |s| :: s[i] != s[j]
    ensures |Elements(s)| == |s|
  {
    if s != [] {
      var front, x := s[..|s| - 1], s[|s| - 1];
      DistinctSize(front);
      assert x !in front;
      assert s == front + [x];
      assert Elements(s) == Elements(front) + {x};
    }
  }

  // ---- runs ----

  datatype AllocOp = NewFile | Append(file: nat) | Delete(file: nat)

  datatype Outcome = Done | Full | Failed

  /** The operation names a file there is. */
  predicate Applies(op: AllocOp, files: seq<seq<nat>>) {
    op.NewFile? || op.file < |files|
  }

  /** What the operation means for the files, up to the choice of the cluster. */
  ghost predicate Effect(op: AllocOp, files: seq<seq<nat>>, files': seq<seq<nat>>)
    requires Applies(op, files)
  {
    match op
    case NewFile => exists r: nat :: files' == files + [[r]]
    case Append(k) => exists r: nat :: files' == files[k := files[k] + [r]]
    case Delete(k) => files' == Without(files, k)
  }

  /** One more cluster for file `k`, or the first one of a new file. */
  method Stretch(fs: Volume, files: seq<seq<nat>>, k: nat) returns (out: Outcome, r: nat)
    requires fs.Valid() && fs.g.fsType != ExFat && FreeCountKnown(fs) && Accounts(fs.tab, files) && k <= |files|
    modifies fs`disk, fs`fat2, fs`wflag, fs`winsect, fs`stale, fs.win
    modifies fs`freeClst, fs`lastClst, fs`fsiDirty, fs`view, fs`tab
    ensures fs.Valid() && (fs.winsect == old(fs.winsect) || IsMeta(fs.g, fs.winsect))
    ensures out != Failed ==> FreeCountKnown(fs)
    ensures out == Full ==> fs.tab == old(fs.tab) && FreeSet(fs.tab) == {}
    ensures out == Done ==> Accounts(fs.tab, if k < |files| then files[k := files[k] + [r]] else files + [[r]])
    ensures Counts(fs.g, fs.freeClst) <==> old(Counts(fs.g, fs.freeClst))
  {
    ghost var t := fs.tab;
    if k < |files| { assert IsChain(t, files[k]); }
    var clst := if k < |files| then Last(files[k]) else 0;
    NoOnes(t, files);
    EndMarkEnds(fs.g);
    r := CreateChain(fs, clst);
    if r == 0 { return Full, r; }
    if r == 1 || r == DISK_ERROR { return Failed, r; }
    if k < |files| {
      AppendAccounts(t, files, k, r, EndMark(fs.g));
    } else {
      NewAccounts(t, files, r, EndMark(fs.g));
    }
    out := Done;
  }

  // ---- which tables have accounts ----

  /** Where a used cluster is in the accounts. */
  lemma OwnedAt(t: seq<nat>, files: seq<seq<nat>>, c: nat) returns (i: nat, j: nat)
    requires Accounts(t, files) && 2 <= c < |t| && t[c] != 0
    ensures i < |files| && IsChain(t, files[i]) && j < |files[i]| && files[i][j] == c
  {
    assert Owned(files, c);
    i :| i < |files| && c in files[i];
    j :| j < |files[i]| && files[i][j] == c;
  }

  /** A cluster is in one place only. */
  lemma OnePlace(t: seq<nat>, files: seq<seq<nat>>, i: nat, j: nat, k: nat, l: nat)
    requires Accounts(t, files) && i < |files| && k < |files| && j < |files[i]| && l < |files[k]|
    requires files[i][j] == files[k][l]
    ensures i == k && j == l
  {
    assert files[i][j] in files[i] && files[k][l] in files[k];
    if i == k { ChainDistinct(t, files[i]); }
  }

  lemma OwnChain(t: seq<nat>, files: seq<seq<nat>>, c: nat)
    requires Accounts(t, files) && 2 <= c < |t| && t[c] != 0
    ensures HasChain(t, c)
  {
    var i, j := OwnedAt(t, files, c);
    ChainTail(t, files[i], j);
    assert ChainFrom(t, files[i][j..], c);
  }

  lemma OwnLink(t: seq<nat>, files: seq<seq<nat>>, c: nat, d: nat)
    requires Accounts(t, files) && 2 <= c < |t| && 2 <= d < |t| && 2 <= t[c] == t[d] < |t|
    ensures c == d
  {
    var i, j := OwnedAt(t, files, c);
    var k, l := OwnedAt(t, files, d);
    NextOf(t, files[i], j);
    NextOf(t, files[k], l);
    OnePlace(t, files, i, j + 1, k, l + 1);
  }

  /** A table with accounts is one of disjoint, terminated chains. */
  lemma AccountsWellFormed(t: seq<nat>, files: seq<seq<nat>>)
    requires Accounts(t, files)
    ensures WellFormed(t)
  {
    forall c | 2 <= c < |t| && t[c] != 0
      ensures HasChain(t, c)
    {
      OwnChain(t, files, c);
    }
    forall c, d | 2 <= c < d < |t| && 2 <= t[c] < |t|
      ensures t[c] != t[d]
    {
      if t[c] == t[d] { OwnLink(t, files, c, d); }
    }
  }

  /** Going back from a used cluster ends at one that nothing links to. */
  lemma {:induction false} HeadOf(t: seq<nat>, ch: seq<nat>) returns (head: seq<nat>)
    requires IsChain(t, ch)
    ensures IsChain(t, head) && !Linked(t, head[0])
    decreases |t| - |ch|
  {
    head := ch;
    if Linked(t, ch[0]) {
      var d :| 2 <= d < |t| && t[d] == ch[0];
      var longer := [d] + ch;
      forall i | 0 <= i < |longer| - 1
        ensures t[longer[i]] == longer[i + 1]
      {
        if i > 0 { NextOf(t, ch, i - 1); }
      }
      ChainShort(t, longer);
      head := HeadOf(t, longer);
    }
  }

  /** A chain is shorter than its table, and removing it leaves fewer clusters in use. */
  lemma ChainShort(t: seq<nat>, ch: seq<nat>)
    requires IsChain(t, ch)
    ensures |ch| < |t| && |UsedSet(Cleared(t, ch))| < |UsedSet(t)|
  {
    GivenBack(t, ch);
    FreePlusUsed(t);
    FreePlusUsed(Cleared(t, ch));
  }

  /** And the other way round: every such table has accounts. */
  lemma {:induction false} WellFormedAccounts(t: seq<nat>) returns (files: seq<seq<nat>>)
    requires WellFormed(t)
    ensures Accounts(t, files)
    decreases |UsedSet(t)|
  {
    if c :| c in UsedSet(t) {
      assert HasChain(t, c);
      var ch :| ChainFrom(t, ch, c);
      var head := HeadOf(t, ch);
      ClearedWellFormed(t, head);
      ChainShort(t, head);
      var rest := WellFormedAccounts(Cleared(t, head));
      files := [head] + rest;
      OneMoreFile(t, head, rest);
    } else {
      files := [];
      assert forall c | 2 <= c < |t| && t[c] != 0 :: c in UsedSet(t);
    }
  }

  /** A chain of the table without `ch` is one of the table with it. */
  lemma StillChain(t: seq<nat>, ch: seq<nat>, o: seq<nat>)
    requires IsChain(Cleared(t, ch), o)
    ensures IsChain(t, o) && Disjoint(ch, o)
  {
    forall j | 0 <= j < |o|
      ensures o[j] !in ch && t[o[j]] == Cleared(t, ch)[o[j]]
    {
      ChainUsed(Cleared(t, ch), o, j);
    }
  }

  lemma OneMoreOwns(ch: seq<nat>, rest: seq<seq<nat>>, c: nat)
    requires c in ch || Owned(rest, c)
    ensures Owned([ch] + rest, c)
  {
    var files := [ch] + rest;
    if c in ch {
      assert c in files[0];
    } else {
      var i :| 0 <= i < |rest| && c in rest[i];
      assert c in files[i + 1];
    }
  }

  lemma OneMoreApart(ch: seq<nat>, rest: seq<seq<nat>>)
    requires forall i | 0 <= i < |rest| :: Disjoint(ch, rest[i])
    requires forall i, j | 0 <= i < j < |rest| :: Disjoint(rest[i], rest[j])
    ensures var files := [ch] + rest; forall i, j | 0 <= i < j < |files| :: Disjoint(files[i], files[j])
  {
    var files := [ch] + rest;
    forall i, j | 0 <= i < j < |files|
      ensures Disjoint(files[i], files[j])
    {
      assert files[j] == rest[j - 1];
      if i > 0 { assert files[i] == rest[i - 1]; }
    }
  }

  lemma OneMoreFile(t: seq<nat>, ch: seq<nat>, rest: seq<seq<nat>>)
    requires IsChain(t, ch) && Accounts(Cleared(t, ch), rest)
    ensures Accounts(t, [ch] + rest)
  {
    forall i | 0 <= i < |rest|
      ensures IsChain(t, rest[i]) && Disjoint(ch, rest[i])
    {
      StillChain(t, ch, rest[i]);
    }
    OneMoreApart(ch, rest);
    forall c | 2 <= c < |t| && t[c] != 0
      ensures Owned([ch] + rest, c)
    {
      if c !in ch { assert Cleared(t, ch)[c] != 0; }
      OneMoreOwns(ch, rest, c);
    }
  }

  /** No entry of the table has the value 1. */
  lemma NoOnes(t: seq<nat>, files: seq<seq<nat>>)
    requires Accounts(t, files) && |t| >= 2
    ensures forall c | 2 <= c < |t| :: t[c] != 1
  {
    forall c | 2 <= c < |t| && t[c] != 0
      ensures t[c] != 1
    {
      assert Owned(files, c);
      var i :| 0 <= i < |files| && c in files[i];
      var j :| 0 <= j < |files[i]| && files[i][j] == c;
      NextOf(t, files[i], j);
    }
  }

  /** One operation on the table: a new file's first cluster, a further cluster of a file, a file removed. */
  method Perform(fs: Volume, files: seq<seq<nat>>, op: AllocOp) returns (out: Outcome, files': seq<seq<nat>>)
    requires fs.Valid() && fs.g.fsType != ExFat && FreeCountKnown(fs) && Accounts(fs.tab, files) && Applies(op, files)
    modifies fs`disk, fs`fat2, fs`wflag, fs`winsect, fs`stale, fs.win
    modifies fs`freeClst, fs`lastClst, fs`fsiDirty, fs`view, fs`tab
    ensures fs.Valid() && (fs.winsect == old(fs.winsect) || IsMeta(fs.g, fs.winsect))
    ensures out != Failed ==> FreeCountKnown(fs) && Accounts(fs.tab, files')
    ensures out == Full ==> files' == files && FreeSet(fs.tab) == {} && !op.Delete?
    ensures out == Done ==> Effect(op, files, files')
    ensures Counts(fs.g, fs.freeClst) <==> old(Counts(fs.g, fs.freeClst))
  {
    files' := files;
    if op.Delete? {
      var ch := files[op.file];
      assert IsChain(fs.tab, ch);
      RemoveFromChain(fs.tab, ch);
      DeleteAccounts(fs.tab, files, op.file);
      var res := RemoveChain(fs, ch[0], 0);
      if res == DiskErr { return Failed, files; }
      out, files' := Done, Without(files, op.file);
    } else {
      var k := if op.NewFile? then |files| else op.file;
      var r;
      out, r := Stretch(fs, files, k);
      if out == Done { files' := if op.NewFile? then files + [[r]] else files[k := files[k] + [r]]; }
    }
  }

  /** What an operation leaves of the files: its effect, unless it does not apply or wants a cluster of a full volume. */
  ghost predicate Leaves(op: AllocOp, clusters: nat, files: seq<seq<nat>>, files': seq<seq<nat>>) {
    if !Applies(op, files) then files' == files
    else Effect(op, files, files') || (!op.Delete? && Total(files) == clusters && files' == files)
  }

  /** The files before and after each operation. */
  ghost predicate History(hist: seq<seq<seq<nat>>>, clusters: nat, ops: seq<AllocOp>) {
    |hist| == |ops| + 1 && forall k | 0 <= k < |ops| :: Leaves(ops[k], clusters, hist[k], hist[k + 1])
  }

  /**
   Any run of operations up to the first disk error. The files are those that the operations leave; their chains are
   intact and disjoint, and the clusters that are not free are theirs.
   */
  method Run(fs: Volume, files: seq<seq<nat>>, ops: seq<AllocOp>)
    returns (failed: bool, files': seq<seq<nat>>, ghost hist: seq<seq<seq<nat>>>)
    requires fs.Valid() && fs.g.fsType != ExFat && FreeCountKnown(fs) && Accounts(fs.tab, files)
    modifies fs`disk, fs`fat2, fs`wflag, fs`winsect, fs`stale, fs.win
    modifies fs`freeClst, fs`lastClst, fs`fsiDirty, fs`view, fs`tab
    ensures fs.Valid() && (fs.winsect == old(fs.winsect) || IsMeta(fs.g, fs.winsect))
    ensures !failed ==> History(hist, fs.g.nFatent - 2, ops) && hist[0] == files && hist[|ops|] == files'
    ensures !failed ==> Accounts(fs.tab, files') && |FreeSet(fs.tab)| + Total(files') == fs.g.nFatent - 2 && WellFormed(fs.tab)
    ensures !failed && old(Counts(fs.g, fs.freeClst)) ==> fs.freeClst + Total(files') == fs.g.nFatent - 2
    ensures Counts(fs.g, fs.freeClst) <==> old(Counts(fs.g, fs.freeClst))
  {
    ghost var n := fs.g.nFatent - 2;
    failed, files', hist := false, files, [files];
    var i := 0;
    while i < |ops|
      invariant 0 <= i <= |ops| && !failed
      invariant fs.Valid() && FreeCountKnown(fs) && Accounts(fs.tab, files')
      invariant Counts(fs.g, fs.freeClst) <==> old(Counts(fs.g, fs.freeClst))
      invariant fs.winsect == old(fs.winsect) || IsMeta(fs.g, fs.winsect)
      invariant |hist| == i + 1 && hist[0] == files && hist[i] == files' && History(hist, n, ops[..i])
    {
      ghost var was := files';
      if Applies(ops[i], files') {
        var out;
        out, files' := Perform(fs, files', ops[i]);
        if out == Failed { return true, files', hist; }
        if out == Full { Conserved(fs.tab, files'); }
      }
      HistoryNext(hist, n, ops, i, files');
      hist, i := hist + [files'], i + 1;
    }
    assert ops[..i] == ops;
    Conserved(fs.tab, files');
    AccountsWellFormed(fs.tab, files');
  }

  lemma HistoryNext(hist: seq<seq<seq<nat>>>, n: nat, ops: seq<AllocOp>, i: nat, now: seq<seq<nat>>)
    requires i < |ops| && History(hist, n, ops[..i]) && Leaves(ops[i], n, hist[i], now)
    ensures History(hist + [now], n, ops[..i + 1])
  {
    forall k | 0 <= k <= i
      ensures ops[..i + 1][k] == ops[k] && (k < i ==> ops[..i][k] == ops[k])
    {
    }
  }

  /** A new volume: one file, the root directory. */
  lemma RootAccounts(t: seq<nat>)
    requires IsChain(t, [2]) && UsedSet(t) == {2}
    ensures Accounts(t, [[2]])
  {
    forall c | 2 <= c < |t| && t[c] != 0
      ensures Owned([[2]], c)
    {
      assert c in UsedSet(t);
      assert c in [[2]][0];
    }
  }
}
