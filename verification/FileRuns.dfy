/** Whole runs of operations on one open file, against a plain sequence of bytes. */
module FileRuns {
  import opened FatCodec
  import opened Volumes
  import opened FileMap
  import opened FileBuffer
  import opened FileChain
  import opened FileLayer
  import opened FileSeek

  datatype Op = OpWrite(data: seq<byte>) | OpRead(count: nat) | OpSeek(ofs: nat)

  /** A file as a user thinks of it: its bytes and a position. */
  datatype Plain = Plain(bytes: seq<byte>, pos: nat)

  predicate PlainOk(s: Plain) {
    s.pos <= |s.bytes|
  }

  function Min(a: nat, b: nat): nat {
    if a < b then a else b
  }

  /** What an operation does to the plain file; a seek must stay inside it. */
  function Apply(s: Plain, op: Op): (r: Plain)
    requires PlainOk(s) && (op.OpSeek? ==> op.ofs <= |s.bytes|)
    ensures PlainOk(r)
  {
    match op
    case OpWrite(data) => Plain(WriteAt(s.bytes, s.pos, data), s.pos + |data|)
    case OpRead(n) => s.(pos := Min(s.pos + n, |s.bytes|))
    case OpSeek(ofs) => s.(pos := ofs)
  }

  /** What an operation answers. */
  function Answer(s: Plain, op: Op): seq<byte>
    requires PlainOk(s)
  {
    if op.OpRead? then s.bytes[s.pos..Min(s.pos + op.count, |s.bytes|)] else []
  }

  /** The operation, with its answer, takes the plain file from `s` to `r`. */
  predicate Does(s: Plain, op: Op, out: seq<byte>, r: Plain) {
    PlainOk(s) && (op.OpSeek? ==> op.ofs <= |s.bytes|) && r == Apply(s, op) && out == Answer(s, op)
  }

  /** The operations, with their answers, take the plain file from `s` to `r`. */
  ghost predicate Runs(s: Plain, ops: seq<Op>, outs: seq<seq<byte>>, r: Plain)
    decreases |ops|
  {
    && |outs| == |ops| && PlainOk(s)
    && if ops == [] then r == s
       else
         var n := |ops| - 1;
         exists m :: Runs(s, ops[..n], outs[..n], m) && Does(m, ops[n], outs[n], r)
  }

  lemma RunsNext(s: Plain, ops: seq<Op>, outs: seq<seq<byte>>, m: Plain, op: Op, out: seq<byte>, r: Plain)
    requires Runs(s, ops, outs, m) && Does(m, op, out, r)
    ensures Runs(s, ops + [op], outs + [out], r) == true
  {
    var n := |ops|;
    assert (ops + [op])[..n] == ops && (outs + [out])[..n] == outs;
    assert Runs(s, (ops + [op])[..n], (outs + [out])[..n], m);
  }

  /** One of the operations is a write. */
  predicate Writes(ops: seq<Op>) {
    ops != [] && (ops[|ops| - 1].OpWrite? || Writes(ops[..|ops| - 1]))
  }

  lemma WritesNext(ops: seq<Op>, op: Op)
    ensures Writes(ops + [op]) <==> op.OpWrite? || Writes(ops)
  {
    assert (ops + [op])[..|ops|] == ops;
  }

  lemma TakeNext<T>(s: seq<T>, i: nat)
    requires i < |s|
    ensures s[..i + 1] == s[..i] + [s[i]]
  {
  }

  /** The open file as a plain one. */
  ghost function Seen(f: File): Plain
    reads f`secs, f`fptr, f.obj`objsize
  {
    Plain(Content(f), f.fptr)
  }

  /** One operation; `done` when it succeeded in full. */
  method Perform(f: File, op: Op) returns (done: bool, out: seq<byte>)
    requires FileOk(f) && f.err == Fine && (op.OpWrite? ==> |op.data| <= 0xFFFF_FFFF)
    modifies f`clust, f`chain, f`addrs, f`sect, f`dirty, f`secs, f.buf, f`fptr, f`err, f`modified
    modifies f.obj`objsize, f.obj`sclust, f.obj`stat, f.obj`nCont, f.obj`nFrag
    modifies f.obj.fs`disk, f.obj.fs`fat2, f.obj.fs`wflag, f.obj.fs`winsect, f.obj.fs`stale, f.obj.fs.win
    modifies f.obj.fs`view, f.obj.fs`tab, f.obj.fs`bits, f.obj.fs`freeClst, f.obj.fs`lastClst, f.obj.fs`fsiDirty
    ensures done ==> FileOk(f) && f.err == Fine && Does(old(Seen(f)), op, out, Seen(f))
    ensures done && (op.OpWrite? || old(f.modified)) ==> f.modified
  {
    FileFacts(f);
    out := [];
    var res;
    match op {
      case OpWrite(data) =>
        var bw;
        res, bw := Write(f, data);
        done := res == Fine && bw == |data|;
        assert data[..|data|] == data;
      case OpRead(n) =>
        res, out := Read(f, n);
        done := res == Fine;
      case OpSeek(ofs) =>
        done := ofs <= f.obj.objsize;
        if done {
          res := Seek(f, ofs);
          done := res == Fine;
        }
    }
  }

  /** Only the file's own sectors of data differ from the volume it was marked on. */
  lemma OthersKept(f: File)
    requires FileOk(f)
    ensures InVolume(f.obj.fs.g, f.chain) && f.addrs == Addrs(f.obj.fs.g, f.chain)
    ensures Elsewhere(f.obj.fs.g, f.mark.view, f.obj.fs.view, f.addrs)
    ensures OwnTables(f.obj.fs.g, f.mark.tables, TablesOf(f.obj.fs), f.mark.chain, f.chain)
  {
    assert OpenFile() && OpenApart() && OpenLinks();
  }

  /**
   Another open file, none of whose sectors are the file's, still has its sectors and its buffer in order after the
   file's operations.
   */
  lemma NeighbourKept(g: Geometry, v: seq<Sector>, w: nat, v': seq<Sector>, w': nat, mine: seq<nat>,
                      addrs: seq<nat>, secs: seq<Sector>, sect: nat, dirty: bool, buf: Sector)
    requires BufferSealed(g, v, w, addrs, secs, sect, dirty, buf) && Elsewhere(g, v, v', mine)
    requires forall q | 0 <= q < |addrs| :: addrs[q] !in mine
    requires |v| <= NO_SECTOR && (w' == w || IsMeta(g, w')) && g.fatBase + g.fSize <= g.database
    ensures BufferSealed(g, v', w', addrs, secs, sect, dirty, buf) == true
  {
    assert OpenBuffer();
    forall q | 0 <= q < |addrs|
      ensures FileSector(g, |v|, w', addrs[q]) && v'[addrs[q]] == v[addrs[q]]
    {
      SectorMoved(g, |v|, w, w', addrs[q]);
    }
  }

  /** Mark the volume as it is. */
  ghost method SetMark(f: File)
    requires FileOk(f)
    modifies f`mark
    ensures FileOk(f) && f.mark == Mark(f.obj.fs.view, TablesOf(f.obj.fs), f.chain)
  {
    assert OpenFile();
    f.mark := Mark(f.obj.fs.view, TablesOf(f.obj.fs), f.chain);
  }

  /**
   Perform operations one after the other, up to the first that does not succeed in full. Apart from the FAT and the
   bitmap, only sectors of the file itself change.
   */
  method Run(f: File, ops: seq<Op>) returns (done: bool, outs: seq<seq<byte>>)
    requires FileOk(f) && f.err == Fine && forall i | 0 <= i < |ops| :: ops[i].OpWrite? ==> |ops[i].data| <= 0xFFFF_FFFF
    modifies f`clust, f`chain, f`addrs, f`sect, f`dirty, f`secs, f.buf, f`fptr, f`err, f`modified, f`mark
    modifies f.obj`objsize, f.obj`sclust, f.obj`stat, f.obj`nCont, f.obj`nFrag
    modifies f.obj.fs`disk, f.obj.fs`fat2, f.obj.fs`wflag, f.obj.fs`winsect, f.obj.fs`stale, f.obj.fs.win
    modifies f.obj.fs`view, f.obj.fs`tab, f.obj.fs`bits, f.obj.fs`freeClst, f.obj.fs`lastClst, f.obj.fs`fsiDirty
    ensures done ==> FileOk(f) && Runs(old(Seen(f)), ops, outs, Seen(f))
    ensures done && (old(f.modified) || Writes(ops)) ==> f.modified
    ensures done ==> Elsewhere(f.obj.fs.g, old(f.obj.fs.view), f.obj.fs.view, f.addrs)
  {
    SetMark(f);
    FileFacts(f);
    ghost var s, v := Seen(f), f.obj.fs.view;
    outs, done := [], true;
    var i := 0;
    while i < |ops|
      invariant 0 <= i <= |ops| && FileOk(f) && f.err == Fine && done && f.mark.view == v
      invariant Runs(s, ops[..i], outs, Seen(f))
      invariant old(f.modified) || Writes(ops[..i]) ==> f.modified
    {
      ghost var m := Seen(f);
      var out;
      done, out := Perform(f, ops[i]);
      if !done { return; }
      RunsNext(s, ops[..i], outs, m, ops[i], out, Seen(f));
      TakeNext(ops, i);
      WritesNext(ops[..i], ops[i]);
      outs, i := outs + [out], i + 1;
    }
    assert ops[..i] == ops;
    OthersKept(f);
  }

  /**
   From the operations to the volume: after any run that writes, and a sync, an object with the same fields opened again
   has the bytes that the run leaves of a plain file.
   */
  method RunThenReopen(f: File, ops: seq<Op>) returns (done: bool, outs: seq<seq<byte>>, h: File?)
    requires FileOk(f) && f.err == Fine && forall i | 0 <= i < |ops| :: ops[i].OpWrite? ==> |ops[i].data| <= 0xFFFF_FFFF
    requires f.modified || Writes(ops)
    modifies f`clust, f`chain, f`addrs, f`sect, f`dirty, f`secs, f.buf, f`fptr, f`err, f`modified, f`mark
    modifies f.obj`objsize, f.obj`sclust, f.obj`stat, f.obj`nCont, f.obj`nFrag
    modifies f.obj.fs`disk, f.obj.fs`fat2, f.obj.fs`wflag, f.obj.fs`winsect, f.obj.fs`stale, f.obj.fs.win
    modifies f.obj.fs`view, f.obj.fs`tab, f.obj.fs`bits, f.obj.fs`freeClst, f.obj.fs`lastClst, f.obj.fs`fsiDirty
    ensures done ==> h != null && fresh(h) && FileOk(h) && h.err == Fine && h.chain == f.chain
    ensures done ==> exists r :: Runs(old(Seen(f)), ops, outs, r) && Seen(h) == Plain(r.bytes, 0)
  {
    h := null;
    done, outs := Run(f, ops);
    if !done { return; }
    ghost var r := Seen(f);
    var res := Sync(f);
    if res != Fine { return false, outs, null; }
    h := Reopen(f);
    assert Runs(old(Seen(f)), ops, outs, r) && Seen(h) == Plain(r.bytes, 0);
  }
}
