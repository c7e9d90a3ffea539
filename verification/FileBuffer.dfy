/** The open file object (`FIL`): its sector buffer over the sectors of its clusters. */
module FileBuffer {
  import opened FatCodec
  import opened Volumes
  import opened Chains
  import opened ExfatAllocator
  import opened FileMap

  /** `assert OpenBuffer();` lets the verifier look at how buffer, disk and file sectors hang together. */
  ghost predicate OpenBuffer(i: int := 0) {
    true
  }

  /** A sector of file data that can be transferred past the window. */
  ghost predicate FileSector(g: Geometry, size: nat, winsect: nat, s: nat) {
    1 <= s < size && PlainRun(g, winsect, s, 1)
  }

  ghost predicate AllFileSectors(g: Geometry, size: nat, winsect: nat, addrs: seq<nat>) {
    forall q | 0 <= q < |addrs| :: FileSector(g, size, winsect, addrs[q])
  }

  /** The file's sectors are those on the volume, but the buffered one is in the buffer. */
  ghost predicate Shows(view: seq<Sector>, addrs: seq<nat>, secs: seq<Sector>, sect: nat, buf: Sector) {
    && |secs| == |addrs|
    && forall q | 0 <= q < |addrs| :: addrs[q] < |view| && secs[q] == if addrs[q] == sect then buf else view[addrs[q]]
  }

  ghost predicate BufferOk(g: Geometry, view: seq<Sector>, winsect: nat,
                           addrs: seq<nat>, secs: seq<Sector>, sect: nat, dirty: bool, buf: Sector) {
    && |buf| == g.ss
    && AllSized(secs, g.ss)
    && Distinct(addrs)
    && AllFileSectors(g, |view|, winsect, addrs)
    && Shows(view, addrs, secs, sect, buf)
    && (sect != 0 ==> sect in addrs)
    && (dirty ==> sect != 0)
    && (!dirty && sect != 0 ==> buf == view[sect])
  }

  ghost predicate BufferSealed(g: Geometry, view: seq<Sector>, winsect: nat,
                               addrs: seq<nat>, secs: seq<Sector>, sect: nat, dirty: bool, buf: Sector) {
    forall i {:trigger OpenBuffer(i)} :: OpenBuffer(i) ==> BufferOk(g, view, winsect, addrs, secs, sect, dirty, buf)
  }

  /** The run of `n` file sectors from `q` on is contiguous on the disk. */
  ghost predicate Contiguous(addrs: seq<nat>, q: nat, n: nat) {
    q + n <= |addrs| && forall i | q <= i < q + n :: addrs[i] == addrs[q] + (i - q)
  }

  lemma ContiguousAt(addrs: seq<nat>, q: nat, n: nat, s: nat)
    requires Contiguous(addrs, q, n) && n > 0 && addrs[q] <= s < addrs[q] + n
    ensures addrs[q + (s - addrs[q])] == s
  {
  }

  lemma PlainContiguous(g: Geometry, size: nat, winsect: nat, addrs: seq<nat>, q: nat, n: nat)
    requires AllFileSectors(g, size, winsect, addrs) && Contiguous(addrs, q, n) && n > 0
    requires g.fsType == ExFat ==> g.bitSize > 0
    ensures addrs[q] + n <= size && PlainRun(g, winsect, addrs[q], n)
  {
    assert FileSector(g, size, winsect, addrs[q + (n - 1)]);
    assert FileSector(g, size, winsect, addrs[q + 0]);
    if addrs[q] <= winsect < addrs[q] + n {
      ContiguousAt(addrs, q, n, winsect);
    }
    if g.fsType == ExFat && addrs[q] < g.bitBase < addrs[q] + n {
      ContiguousAt(addrs, q, n, g.bitBase);
    }
  }

  /** A write to a contiguous run of the file's sectors. */
  lemma SplicedShows(g: Geometry, view: seq<Sector>, winsect: nat, addrs: seq<nat>, secs: seq<Sector>, sect: nat,
                     buf: Sector, q: nat, data: seq<Sector>)
    requires BufferOk(g, view, winsect, addrs, secs, sect, false, buf)
    requires Contiguous(addrs, q, |data|) && |data| > 0 && AllSized(data, g.ss) && addrs[q] + |data| <= |view|
    ensures var buf' := if addrs[q] <= sect < addrs[q] + |data| then data[sect - addrs[q]] else buf;
            BufferOk(g, Spliced(view, addrs[q], data), winsect, addrs, Splice(secs, q, data), sect, false, buf')
  {
    var view' := Spliced(view, addrs[q], data);
    var buf' := if addrs[q] <= sect < addrs[q] + |data| then data[sect - addrs[q]] else buf;
    var secs' := Splice(secs, q, data);
    forall i | 0 <= i < |addrs|
      ensures secs'[i] == if addrs[i] == sect then buf' else view'[addrs[i]]
    {
      if q <= i < q + |data| {
        assert addrs[i] == addrs[q] + (i - q);
      } else if addrs[q] <= addrs[i] < addrs[q] + |data| {
        ContiguousAt(addrs, q, |data|, addrs[i]);
      }
    }
    forall i | 0 <= i < |secs'|
      ensures |secs'[i]| == g.ss
    {
    }
  }

  lemma SplicedSealed(g: Geometry, view: seq<Sector>, view': seq<Sector>, winsect: nat, addrs: seq<nat>,
                      secs: seq<Sector>, sect: nat, buf: Sector, q: nat, data: seq<Sector>)
    requires BufferSealed(g, view, winsect, addrs, secs, sect, false, buf) && |secs| == |addrs|
    requires Contiguous(addrs, q, |data|) && |data| > 0 && AllSized(data, g.ss) && addrs[q] + |data| <= |view|
    requires view' == Spliced(view, addrs[q], data)
    ensures var buf' := if addrs[q] <= sect < addrs[q] + |data| then data[sect - addrs[q]] else buf;
            BufferSealed(g, view', winsect, addrs, Splice(secs, q, data), sect, false, buf') == true
  {
    assert OpenBuffer();
    SplicedShows(g, view, winsect, addrs, secs, sect, buf, q, data);
  }

  // ---- what is not the file's ----

  /** `assert OpenApart();` lets the verifier look at what happened to the sectors of others. */
  ghost predicate OpenApart(i: int := 0) {
    true
  }

  /** No sector of data that is not among `addrs` differs. */
  ghost predicate Elsewhere(g: Geometry, base: seq<Sector>, view: seq<Sector>, addrs: seq<nat>) {
    && |base| == |view|
    && forall s | 0 <= s < |view| && !IsMeta(g, s) && s !in addrs :: view[s] == base[s]
  }

  /** What an open file depends on besides the data. */
  datatype Tables = Tables(winsect: nat, tab: seq<nat>, bits: seq<bool>)

  ghost function TablesOf(fs: Volume): Tables
    reads fs
  {
    Tables(fs.winsect, fs.tab, fs.bits)
  }

  /** The cluster is free. */
  ghost predicate FreeIn(g: Geometry, t: Tables, c: nat) {
    if g.fsType == ExFat then 2 <= c < |t.bits| + 2 && !t.bits[c - 2] else c < |t.tab| && t.tab[c] == 0
  }

  /** From `was` to `now` only the clusters of a chain changed, which grew from `ch0` to `ch` by free clusters. */
  ghost predicate OwnTables(g: Geometry, was: Tables, now: Tables, ch0: seq<nat>, ch: seq<nat>) {
    && (now.winsect == was.winsect || IsMeta(g, now.winsect))
    && OnlyOf(was.tab, now.tab, ch) && |now.bits| == |was.bits|
    && (forall b | 0 <= b < |was.bits| && b + 2 !in ch :: now.bits[b] == was.bits[b])
    && (forall c | c in ch :: c in ch0 || FreeIn(g, was, c))
  }

  ghost predicate OwnSealed(g: Geometry, was: Tables, now: Tables, ch0: seq<nat>, ch: seq<nat>) {
    forall i {:trigger OpenApart(i)} :: OpenApart(i) ==> OwnTables(g, was, now, ch0, ch)
  }

  /** The volume at some moment, and what the file had of it. */
  datatype Mark = Mark(view: seq<Sector>, tables: Tables, chain: seq<nat>)

  /** Since the mark nothing changed but what the file has. */
  ghost predicate Apart(g: Geometry, m: Mark, view: seq<Sector>, t: Tables, chain: seq<nat>, addrs: seq<nat>) {
    forall i {:trigger OpenApart(i)} :: OpenApart(i) ==>
      Elsewhere(g, m.view, view, addrs) && OwnTables(g, m.tables, t, m.chain, chain)
  }

  /** Edits of the file's own entries of the FAT and the bitmap. */
  lemma ApartMoved(g: Geometry, m: Mark, v: seq<Sector>, t: Tables, v': seq<Sector>, t': Tables, chain: seq<nat>,
                   addrs: seq<nat>)
    requires Apart(g, m, v, t, chain, addrs) && SameData(g, v, v') && OwnSealed(g, t, t', chain, chain)
    ensures Apart(g, m, v', t', chain, addrs) == true
  {
    assert OpenApart();
  }

  /** One more cluster for the file. */
  lemma ApartGrown(g: Geometry, m: Mark, v: seq<Sector>, t: Tables, v': seq<Sector>, t': Tables, chain: seq<nat>,
                   c: nat, addrs: seq<nat>, more: seq<nat>)
    requires Apart(g, m, v, t, chain, addrs) && SameData(g, v, v') && OwnSealed(g, t, t', chain, chain + [c])
    ensures Apart(g, m, v', t', chain + [c], addrs + more) == true
  {
    assert OpenApart();
    var ch := chain + [c];
    forall x | x in ch
      ensures x in m.chain || FreeIn(g, m.tables, x)
    {
      if x !in chain { assert FreeIn(g, t, x); }
    }
    forall x | 0 <= x < |t.tab| && x !in ch
      ensures t'.tab[x] == m.tables.tab[x]
    {
      assert x !in chain;
    }
    forall b | 0 <= b < |t.bits| && b + 2 !in ch
      ensures t'.bits[b] == m.tables.bits[b]
    {
      assert b + 2 !in chain;
    }
  }

  /** A write to the file's own sectors. */
  lemma ApartSpliced(g: Geometry, m: Mark, v: seq<Sector>, t: Tables, chain: seq<nat>, addrs: seq<nat>, q: nat,
                     data: seq<Sector>)
    requires Apart(g, m, v, t, chain, addrs) && Contiguous(addrs, q, |data|) && |data| > 0 && addrs[q] + |data| <= |v|
    ensures Apart(g, m, Spliced(v, addrs[q], data), t, chain, addrs) == true
  {
    assert OpenApart();
    forall s | addrs[q] <= s < addrs[q] + |data|
      ensures s in addrs
    {
      ContiguousAt(addrs, q, |data|, s);
    }
  }

  /** Nothing but the window moved. */
  lemma OwnMoved(g: Geometry, t: Tables, w: nat, ch: seq<nat>)
    requires w == t.winsect || IsMeta(g, w)
    ensures OwnSealed(g, t, t.(winsect := w), ch, ch) == true
  {
  }

  /** The sectors of a volume image at the given addresses. */
  ghost function Gather(view: seq<Sector>, addrs: seq<nat>): (secs: seq<Sector>)
    ensures |secs| == |addrs|
    ensures forall q | 0 <= q < |addrs| && addrs[q] < |view| :: secs[q] == view[addrs[q]]
  {
    seq(|addrs|, q requires 0 <= q < |addrs| => if addrs[q] < |view| then view[addrs[q]] else [])
  }

  /** `FIL`. The fields `addrs` and `secs` say which sectors the file has and what is in them. */
  class File {
    const obj: ObjectId
    const buf: array<byte>
    const canRead: bool
    const canWrite: bool
    var dirty: bool
    var modified: bool
    var err: Status
    var fptr: nat
    var clust: nat
    var sect: nat
    ghost var chain: seq<nat>
    ghost var addrs: seq<nat>
    ghost var secs: seq<Sector>
    ghost var mark: Mark  // the volume since when only what the file has changed

    /** An object just opened: nothing buffered, the pointer at the top. */
    constructor (obj: ObjectId, buf: array<byte>, canRead: bool, canWrite: bool, ghost chain: seq<nat>)
      requires InVolume(obj.fs.g, chain)
      ensures this.obj == obj && this.buf == buf && this.canRead == canRead && this.canWrite == canWrite
      ensures this.chain == chain && fptr == 0 && sect == 0 && err == Fine && !dirty
      ensures addrs == Addrs(obj.fs.g, chain) && secs == Gather(obj.fs.view, addrs)
      ensures mark == Mark(obj.fs.view, TablesOf(obj.fs), chain)
    {
      this.obj, this.buf, this.canRead, this.canWrite, this.chain := obj, buf, canRead, canWrite, chain;
      dirty, modified, err, fptr, clust, sect := false, false, Fine, 0, 0, 0;
      addrs := Addrs(obj.fs.g, chain);
      secs := Gather(obj.fs.view, Addrs(obj.fs.g, chain));
      mark := Mark(obj.fs.view, TablesOf(obj.fs), chain);
    }

    /** The volume and the buffer are in order. */
    ghost predicate Sound()
      reads this`chain, this`addrs, this`secs, this`mark, this`sect, this`dirty, buf, obj.fs, obj.fs.win
    {
      && buf != obj.fs.win && obj.fs.Valid() && |secs| == |addrs|
      && Apart(obj.fs.g, mark, obj.fs.view, TablesOf(obj.fs), chain, addrs) == true
      && BufferSealed(obj.fs.g, obj.fs.view, obj.fs.winsect, addrs, secs, sect, dirty, buf[..]) == true
    }

    /** Write the buffered sector back to the disk. */
    method Flush() returns (ok: bool)
      requires Sound() && dirty
      modifies this`dirty, obj.fs`disk, obj.fs`view
      ensures obj.fs.Valid()
      ensures ok ==> Sound() && !dirty
    {
      assert OpenBuffer();
      ghost var g, v, w := obj.fs.g, obj.fs.view, obj.fs.winsect;
      ghost var q :| 0 <= q < |addrs| && addrs[q] == sect;
      assert FileSector(g, |v|, w, addrs[q]);
      ApartSpliced(g, mark, v, TablesOf(obj.fs), chain, addrs, q, [buf[..]]);
      ok := obj.fs.WriteData(sect, [buf[..]]);
      if ok {
        dirty := false;
      }
    }

    /** Make the buffer show file sector `q`, at disk sector `sc`, reading it from the disk. */
    method Load(sc: nat, ghost q: nat) returns (ok: bool)
      requires Sound() && !dirty && q < |addrs| && sc == addrs[q]
      modifies this`sect, buf
      ensures obj.fs.Valid()
      ensures ok ==> Sound() && sect == sc && sc != 0
    {
      assert OpenBuffer();
      assert FileSector(obj.fs.g, |obj.fs.view|, obj.fs.winsect, addrs[q]);
      var data;
      ok, data := obj.fs.ReadData(sc, 1);
      if ok {
        Copy(data[0]);
        sect := sc;
      }
    }

    /** Fill the buffer. */
    method Copy(sec: Sector)
      requires buf.Length == |sec|
      modifies buf
      ensures buf[..] == sec
    {
      forall i | 0 <= i < buf.Length { buf[i] := sec[i]; }
    }

    /** Let the buffer stand for file sector `q` without reading it: its contents are lost. */
    method Adopt(sc: nat, ghost q: nat)
      requires Sound() && !dirty && q < |addrs| && sc == addrs[q] && sect != sc
      modifies this`sect, this`dirty, this`secs
      ensures Sound() && sect == sc && sc != 0 && dirty
      ensures |buf[..]| == obj.fs.g.ss && secs == old(secs)[q := buf[..]]
    {
      assert OpenBuffer();
      assert FileSector(obj.fs.g, |obj.fs.view|, obj.fs.winsect, addrs[q]);
      sect := sc;
      dirty := true;
      secs := secs[q := buf[..]];
    }

    /** Put bytes into the buffered sector. */
    method Patch(ghost q: nat, o: nat, data: seq<byte>)
      requires Sound() && q < |addrs| && sect == addrs[q] && o + |data| <= obj.fs.g.ss
      modifies this`dirty, this`secs, buf
      ensures Sound() && dirty
      ensures |old(secs)[q]| == obj.fs.g.ss && secs == old(secs)[q := Splice(old(secs)[q], o, data)]
    {
      assert OpenBuffer();
      assert FileSector(obj.fs.g, |obj.fs.view|, obj.fs.winsect, addrs[q]);
      forall i | 0 <= i < |data| { buf[o + i] := data[i]; }
      dirty := true;
      secs := secs[q := Splice(secs[q], o, data)];
      assert buf[..] == Splice(old(buf[..]), o, data);
    }

    /** Write whole sectors past the buffer; a buffered sector among them is refilled. */
    method DirectWrite(sc: nat, ghost q: nat, data: seq<Sector>) returns (ok: bool)
      requires Sound() && !dirty && |data| > 0 && AllSized(data, obj.fs.g.ss)
      requires Contiguous(addrs, q, |data|) && sc == addrs[q]
      modifies this`secs, buf, obj.fs`disk, obj.fs`view
      ensures obj.fs.Valid()
      ensures ok ==> Sound() && secs == Splice(old(secs), q, data)
    {
      PlainHere(q, |data|);
      ghost var v := obj.fs.view;
      ok := obj.fs.WriteData(sc, data);
      if ok { Account(sc, q, data, v); }
    }

    /** The volume `v` became one with `data` in the file's sectors from `q` on: so do the buffer and the sectors. */
    method Account(sc: nat, ghost q: nat, data: seq<Sector>, ghost v: seq<Sector>)
      requires obj.fs.Valid() && buf != obj.fs.win && |secs| == |addrs| && !dirty
      requires |data| > 0 && AllSized(data, obj.fs.g.ss) && buf.Length == obj.fs.g.ss
      requires Contiguous(addrs, q, |data|) && sc == addrs[q] && sc + |data| <= |v| && obj.fs.view == Spliced(v, sc, data)
      requires BufferSealed(obj.fs.g, v, obj.fs.winsect, addrs, secs, sect, false, buf[..])
      requires Apart(obj.fs.g, mark, v, TablesOf(obj.fs), chain, addrs)
      modifies this`secs, buf
      ensures Sound() && q + |data| <= |old(secs)| && secs == Splice(old(secs), q, data)
    {
      SplicedSealed(obj.fs.g, v, obj.fs.view, obj.fs.winsect, addrs, secs, sect, buf[..], q, data);
      ApartSpliced(obj.fs.g, mark, v, TablesOf(obj.fs), chain, addrs, q, data);
      Refill(sc, data);
      secs := Splice(secs, q, data);
    }

    /** Refill the buffer if its sector is among the ones just written. */
    method Refill(sc: nat, data: seq<Sector>)
      requires AllSized(data, buf.Length)
      modifies buf
      ensures buf[..] == if sc <= sect < sc + |data| then data[sect - sc] else old(buf[..])
    {
      if sc <= sect < sc + |data| { Copy(data[sect - sc]); }
    }

    lemma PlainHere(q: nat, n: nat)
      requires Sound() && n > 0 && Contiguous(addrs, q, n)
      ensures buf.Length == obj.fs.g.ss
      ensures addrs[q] + n <= |obj.fs.view| && PlainRun(obj.fs.g, obj.fs.winsect, addrs[q], n)
    {
      assert OpenBuffer();
      BitmapThere();
      PlainContiguous(obj.fs.g, |obj.fs.view|, obj.fs.winsect, addrs, q, n);
    }

    lemma BitmapThere()
      requires obj.fs.Valid()
      ensures obj.fs.g.fsType == ExFat ==> obj.fs.g.bitSize > 0
    {
      assert OpenTables();
    }

    /** Read whole sectors past the buffer; a dirty buffered sector among them is put in its place. */
    method DirectRead(sc: nat, ghost q: nat, cc: nat) returns (ok: bool, data: seq<Sector>)
      requires Sound() && cc > 0 && Contiguous(addrs, q, cc) && sc == addrs[q]
      ensures ok ==> data == secs[q..q + cc]
    {
      assert OpenBuffer();
      PlainHere(q, cc);
      ok, data := obj.fs.ReadData(sc, cc);
      if ok {
        if dirty && sc <= sect < sc + cc { data := data[sect - sc := buf[..]]; }
        forall i | 0 <= i < cc
          ensures data[i] == secs[q..q + cc][i]
        {
          assert addrs[q + i] == sc + i;
        }
      }
    }
  }
}
