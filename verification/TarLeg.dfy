/** The tar leg: the orchestrator feeds files to files2tar, tar2files serves them again. */
module TarLeg {
  import opened Options
  import opened FatCodec
  import opened TarArchive

  const READ_FILE_MAX_SIZE: nat := 10 * 1024 * 1024

  function TrimSlashes(path: string): string {
    if path != "" && path[0] == '/' then TrimSlashes(path[1..]) else path
  }

  // ---- files2tar ----

  datatype State = Waiting | Writing(total: nat, written: nat) | Ending | Gone

  /** `assert OpenTar();` lets the verifier look at what the output holds. */
  ghost predicate OpenTar(i: int := 0) {
    true
  }

  /** The output holds the finished entries, the one being written, and the end marks once closed. */
  ghost predicate OutOk(c: Codec, state: State, closed: bool, out: seq<byte>, es: seq<Entry>, cur: Entry) {
    && Fit(c, es)
    && (state == Waiting ==> out == Stream(c, es))
    && (state.Writing? ==> c.fits(cur.header) && out == Stream(c, es) + c.enc(cur.header) + cur.data)
    && (closed ==> out == Stream(c, es) + Zeros(2 * BLOCK))
  }

  ghost predicate OutSealed(c: Codec, state: State, closed: bool, out: seq<byte>, es: seq<Entry>, cur: Entry) {
    forall i {:trigger OpenTar(i)} :: OpenTar(i) ==> OutOk(c, state, closed, out, es, cur)
  }

  lemma {:induction false} OutStarted(c: Codec, out: seq<byte>, es: seq<Entry>, cur: Entry, h: Header, total: nat)
    requires OutSealed(c, Waiting, false, out, es, cur) && c.fits(h)
    ensures OutSealed(c, Writing(total, 0), false, out + c.enc(h), es, Entry(h, [])) == true
  {
    assert OpenTar();
    assert Stream(c, es) + c.enc(h) + [] == Stream(c, es) + c.enc(h);
  }

  lemma {:induction false} OutAdded(c: Codec, s: State, s': State, out: seq<byte>, es: seq<Entry>, cur: Entry,
                                    data: seq<byte>)
    requires OutSealed(c, s, false, out, es, cur) && s.Writing? && s'.Writing?
    ensures OutSealed(c, s', false, out + data, es, Entry(cur.header, cur.data + data)) == true
  {
    assert OpenTar();
    var a := Stream(c, es) + c.enc(cur.header);
    assert a + cur.data + data == a + (cur.data + data);
  }

  lemma {:induction false} OutEnded(c: Codec, s: State, out: seq<byte>, es: seq<Entry>, cur: Entry)
    requires OutSealed(c, s, false, out, es, cur) && s.Writing?
    ensures OutSealed(c, Waiting, false, out + Zeros(Padding(|cur.data|)), es + [cur], cur) == true
  {
    assert OpenTar();
    EntryDone(c, es, cur);
  }

  lemma {:induction false} OutAppended(c: Codec, out: seq<byte>, es: seq<Entry>, cur: Entry, e: Entry)
    requires OutSealed(c, Waiting, false, out, es, cur) && c.fits(e.header)
    ensures OutSealed(c, Waiting, false, out + EntryBytes(c, e), es + [e], cur) == true
  {
    assert OpenTar();
    StreamSnoc(c, es, e);
  }

  lemma {:induction false} OutClosed(c: Codec, out: seq<byte>, es: seq<Entry>, cur: Entry)
    requires OutSealed(c, Waiting, false, out, es, cur)
    ensures OutSealed(c, Ending, true, out + Zeros(2 * BLOCK), es, cur) == true
  {
    assert OpenTar();
  }

  /** A process that goes on to its end leaves the output alone. */
  lemma OutStopped(c: Codec, s: State, s': State, closed: bool, out: seq<byte>, es: seq<Entry>, cur: Entry)
    requires OutSealed(c, s, closed, out, es, cur) && s' in {Ending, Gone}
    ensures OutSealed(c, s', closed, out, es, cur) == true
  {
    assert OpenTar();
  }

  /** files2tar: its state, its output and, for the proofs, what the output holds. */
  class Archiver {
    const codec: Codec
    const prefix: Option<string>
    var state: State
    var out: seq<byte>
    var closed: bool
    ghost var entries: seq<Entry>
    ghost var current: Entry

    ghost predicate Valid()
      reads this
    {
      && CodecOk(codec)
      && (state == Waiting || state.Writing? ==> !closed)
      && (state.Writing? ==> state.written == |current.data| <= state.total)
      && OutSealed(codec, state, closed, out, entries, current) == true
    }

    /** With a prefix the archive starts with its directory. */
    constructor (codec: Codec, prefix: Option<string>)
      requires CodecOk(codec)
      requires prefix.Some? ==> codec.fits(Header(prefix.value, Directory, 0, 0))
      ensures Valid() && state == Waiting && this.codec == codec && this.prefix == prefix
      ensures entries == if prefix.Some? then [Entry(Header(prefix.value, Directory, 0, 0), [])] else []
    {
      this.codec, this.prefix, closed, state := codec, prefix, false, Waiting;
      var first := if prefix.Some? then [Entry(Header(prefix.value, Directory, 0, 0), [])] else [];
      entries := first;
      out := Stream(codec, first);
      current := Entry(Header("", Other, 0, 0), []);
    }

    /** What an unexpected request does in any state. */
    method Unexpected()
      requires Valid()
      modifies this`state
      ensures Valid() && state != Waiting && !state.Writing?
    {
      var next := if state.Waiting? || state.Writing? then Ending else Gone;
      OutStopped(codec, state, next, closed, out, entries, current);
      state := next;
    }

    /** An error while writing: wait for the end. */
    method Fail()
      requires Valid()
      modifies this`state
      ensures Valid() && state == Ending
    {
      OutStopped(codec, state, Ending, closed, out, entries, current);
      state := Ending;
    }

    /** The name of a file in the archive. */
    function NameOf(path: string): string {
      (if prefix.Some? then prefix.value else "") + TrimSlashes(path)
    }

    function HeaderOf(path: string, ftype: FileType, size: nat, mtime: int): Header {
      Header(NameOf(path), ftype, if ftype == Regular then size else 0, mtime)
    }

    /** `NewFile`. A file type that is no number of the protocol ends the archive, one that tar has not is refused. */
    method NewFile(path: string, ftype: Option<FileType>, size: nat, mtime: int) returns (ok: bool)
      requires Valid()
      modifies this
      ensures Valid() && entries == old(entries) && closed == old(closed)
      ensures ok <==> state.Writing?
      ensures ok ==> old(state) == Waiting && ftype.Some? && ftype.value != Other && state.total == size
                     && current == Entry(HeaderOf(path, ftype.value, size, mtime), [])
      ensures old(state) != Waiting ==> state != Waiting
      ensures state == Waiting ==> out == old(out)
    {
      ok := false;
      if state != Waiting || ftype.None? {
        Unexpected();
        return;
      }
      var h := HeaderOf(path, ftype.value, size, mtime);
      if ftype.value == Other || !codec.fits(h) { return; }
      OutStarted(codec, out, entries, current, h, size);
      out := out + codec.enc(h);
      current := Entry(h, []);
      state := Writing(size, 0);
      ok := true;
    }

    /** `WriteFile`: the data goes to the output as it is. */
    method WriteFile(data: seq<byte>) returns (ok: bool)
      requires Valid()
      modifies this
      ensures Valid() && entries == old(entries) && closed == old(closed)
      ensures ok ==> old(state).Writing? && state == Writing(old(state).total, old(state).written + |data|)
                     && current == Entry(old(current).header, old(current).data + data)
      ensures ok <==> state.Writing?
      ensures state != Waiting
    {
      ok := false;
      if !state.Writing? || state.written + |data| > state.total {
        Unexpected();
        return;
      }
      var written: bool := *;
      if !written {
        Fail();
        return;
      }
      var next := Writing(state.total, state.written + |data|);
      OutAdded(codec, state, next, out, entries, current, data);
      out := out + data;
      current := Entry(current.header, current.data + data);
      state := next;
      ok := true;
    }

    /** `EndFile`: pad to a whole block. It is not checked that all announced bytes have come. */
    method EndFile() returns (ok: bool)
      requires Valid()
      modifies this
      ensures Valid() && closed == old(closed)
      ensures ok <==> state == Waiting
      ensures ok ==> old(state).Writing? && entries == old(entries) + [old(current)]
      ensures !ok ==> entries == old(entries)
      ensures !state.Writing?
    {
      ok := false;
      if !state.Writing? {
        Unexpected();
        return;
      }
      var padded: bool := *;
      if !padded {
        Fail();
        return;
      }
      var remaining := BLOCK - state.written % BLOCK;
      var pad := if remaining < BLOCK then Zeros(remaining) else [];
      PadIs(state.written, pad);
      OutEnded(codec, state, out, entries, current);
      out := out + pad;
      entries := entries + [current];
      state := Waiting;
      ok := true;
    }

    /** `Close`: with a prefix the information about the transfer is added; two blocks of zeros end the archive. */
    method Close(infos: seq<byte>, mtime: int) returns (ok: bool)
      requires Valid()
      modifies this
      ensures Valid() && (if ok then old(state) == Waiting && closed else closed == old(closed))
      ensures state != Waiting && !state.Writing?
      ensures ok ==>
                entries == old(entries)
                           + if prefix.Some? then [Entry(Header("infos.json", Regular, |infos|, mtime), infos)] else []
    {
      ok := false;
      if state != Waiting {
        Unexpected();
        return;
      }
      var h := Header("infos.json", Regular, |infos|, mtime);
      var written: bool := *;
      if !written || (prefix.Some? && !codec.fits(h)) {
        Fail();
        return;
      }
      if prefix.Some? {
        OutAppended(codec, out, entries, current, Entry(h, infos));
        out := out + EntryBytes(codec, Entry(h, infos));
        entries := entries + [Entry(h, infos)];
      }
      OutClosed(codec, out, entries, current);
      out := out + Zeros(2 * BLOCK);
      closed, state := true, Ending;
      ok := true;
    }
  }

  lemma PadIs(len: nat, pad: seq<byte>)
    requires pad == if BLOCK - len % BLOCK < BLOCK then Zeros(BLOCK - len % BLOCK) else []
    ensures pad == Zeros(Padding(len))
  {
  }

  lemma {:induction false} EntryDone(c: Codec, es: seq<Entry>, e: Entry)
    ensures Stream(c, es) + c.enc(e.header) + e.data + Zeros(Padding(|e.data|)) == Stream(c, es + [e])
  {
    StreamSnoc(c, es, e);
    Associate(Stream(c, es), c.enc(e.header), e.data, Zeros(Padding(|e.data|)));
  }

  lemma Associate(a: seq<byte>, b: seq<byte>, c: seq<byte>, d: seq<byte>)
    ensures a + b + c + d == a + (b + c + d)
  {
  }

  // ---- the source device, and what was read from it ----

  datatype Attrs = Attrs(ftype: Option<FileType>, size: nat, mtime: int)

  /** `attrs` and data as the source device gives them: it may fail, and answer with fewer or more bytes than asked. */
  method SourceAttrs(path: string) returns (r: Option<Attrs>) {
    var ok: bool := *;
    var ftype: Option<FileType> := *;
    var size: nat := *;
    var mtime: int := *;
    r := if ok then Some(Attrs(ftype, size, mtime)) else None;
  }

  /** A complete answer is what the file has there. */
  method ReadSource(source: string -> seq<byte>, path: string, offset: nat, size: nat) returns (r: Option<seq<byte>>)
    ensures r.Some? && |r.value| == size ==>
              offset + size <= |source(path)| && r.value == source(path)[offset..offset + size]
  {
    var ok: bool := *;
    var whole: bool := *;
    var data: seq<byte> := *;
    if !ok {
      r := None;
    } else if whole && offset + size <= |source(path)| {
      r := Some(source(path)[offset..offset + size]);
    } else {
      r := if |data| == size then None else Some(data);
    }
  }

  /** One more part of what a prefix is a prefix of. */
  lemma PrefixNext(all: seq<byte>, a: seq<byte>, b: seq<byte>)
    requires a <= all && |a| + |b| <= |all| && b == all[|a|..|a| + |b|]
    ensures a + b <= all
  {
  }

  /** The elements of `s` that are marked with `value`. */
  function Marked<T>(s: seq<T>, marks: seq<bool>, value: bool): (r: seq<T>)
    requires |marks| == |s|
  {
    if s == [] then []
    else Marked(s[..|s| - 1], marks[..|s| - 1], value) + if marks[|s| - 1] == value then [s[|s| - 1]] else []
  }

  lemma {:induction false} MarkedSnoc<T>(s: seq<T>, marks: seq<bool>, x: T, m: bool, value: bool)
    requires |marks| == |s|
    ensures Marked(s + [x], marks + [m], value) == Marked(s, marks, value) + if m == value then [x] else []
  {
    assert (s + [x])[..|s|] == s && (marks + [m])[..|s|] == marks;
  }

  /** One more entry, for the file at `path`; an exact one if all of it came. */
  ghost predicate Added(tar: Archiver, es: seq<Entry>, es': seq<Entry>, path: string, data: seq<byte>, complete: bool) {
    && |es'| == |es| + 1 && es'[..|es|] == es
    && var e := es'[|es|];
       && e.data == data && e.header.path == tar.NameOf(path) && e.header.ftype in {Regular, Directory}
       && |e.data| <= e.header.size && (complete ==> Exact(e))
  }

  lemma AddedIs(tar: Archiver, es: seq<Entry>, path: string, ftype: FileType, size: nat, mtime: int, data: seq<byte>,
                complete: bool)
    requires ftype in {Regular, Directory} && |data| <= size && (ftype == Directory ==> size == 0)
    requires complete ==> |data| == size
    ensures Added(tar, es, es + [Entry(tar.HeaderOf(path, ftype, size, mtime), data)], path, data, complete) == true
  {
  }

  /** Entries `base` on are the files `done`, with what was read of them. */
  ghost predicate Holds(tar: Archiver, es: seq<Entry>, base: nat, done: seq<string>, contents: seq<seq<byte>>) {
    && |es| == base + |done| && |contents| == |done|
    && forall i | 0 <= i < |done| ::
         var e := es[base + i];
         && e.header.path == tar.NameOf(done[i]) && e.header.ftype in {Regular, Directory}
         && e.data == contents[i] && |e.data| <= e.header.size
  }

  /** What the archive holds while it can be closed: the entries it had, and the files done since. */
  ghost predicate Progress(tar: Archiver, first: seq<Entry>, es: seq<Entry>, done: seq<string>,
                           contents: seq<seq<byte>>, full: bool) {
    && Holds(tar, es, |first|, done, contents) && es[..|first|] == first
    && (full ==> forall j | |first| <= j < |es| :: Exact(es[j]))
  }

  lemma ProgressSnoc(tar: Archiver, first: seq<Entry>, es: seq<Entry>, es': seq<Entry>, done: seq<string>,
                     contents: seq<seq<byte>>, full: bool, path: string, data: seq<byte>, complete: bool)
    requires Progress(tar, first, es, done, contents, full) && Added(tar, es, es', path, data, complete)
    ensures Progress(tar, first, es', done + [path], contents + [data], full && complete) == true
  {
    HoldsSnoc(tar, es, es', |first|, done, contents, path);
    assert es'[..|first|] == es'[..|es|][..|first|];
    forall j | |first| <= j < |es'| && full && complete
      ensures Exact(es'[j])
    {
      if j < |es| { assert es'[..|es|][j] == es[j]; }
    }
  }

  lemma HoldsSnoc(tar: Archiver, es: seq<Entry>, es': seq<Entry>, base: nat, done: seq<string>,
                  contents: seq<seq<byte>>, path: string)
    requires Holds(tar, es, base, done, contents) && |es'| == |es| + 1 && es'[..|es|] == es
    requires var e := es'[|es|];
             e.header.path == tar.NameOf(path) && e.header.ftype in {Regular, Directory} && |e.data| <= e.header.size
    ensures Holds(tar, es', base, done + [path], contents + [es'[|es|].data])
  {
    forall i | 0 <= i < |es|
      ensures es'[i] == es[i]
    {
      assert es'[..|es|][i] == es[i];
    }
  }

  // ---- tar2files ----

  /** The metadata map: the last entry of a name counts. */
  function Lookup(index: seq<Located>, name: string): Option<Located> {
    if index == [] then None
    else
      var last := index[|index| - 1];
      if last.header.path == name && last.header.ftype != Other then Some(last) else Lookup(index[..|index| - 1], name)
  }

  /** `readfile`: bytes of the archive from the entry's data on; at most 10 MiB at a time. */
  function ReadFile(archive: seq<byte>, index: seq<Located>, path: string, offset: nat, size: nat): Option<seq<byte>> {
    if size > READ_FILE_MAX_SIZE then None
    else
      match Lookup(index, TrimSlashes(path))
      case None => None
      case Some(l) =>
        if l.offset + offset + size > |archive| then None
        else Some(archive[l.offset + offset..l.offset + offset + size])
  }

  /** Entry `i` is a file or a directory, and no later one has its name. */
  ghost predicate LastOfName(es: seq<Entry>, i: nat) {
    && i < |es| && es[i].header.ftype != Other
    && forall j | i < j < |es| && es[j].header.ftype != Other :: es[j].header.path != es[i].header.path
  }

  lemma {:induction false} LookupAt(index: seq<Located>, i: nat)
    requires i < |index| && index[i].header.ftype != Other
    requires forall j | i < j < |index| && index[j].header.ftype != Other :: index[j].header.path != index[i].header.path
    ensures Lookup(index, index[i].header.path) == Some(index[i])
  {
    if i < |index| - 1 {
      LookupAt(index[..|index| - 1], i);
    }
  }

  /** What is found is the last entry of that name. */
  lemma {:induction false} LookupSome(index: seq<Located>, name: string) returns (i: nat)
    requires Lookup(index, name).Some?
    ensures i < |index| && Lookup(index, name) == Some(index[i])
    ensures index[i].header.path == name && index[i].header.ftype != Other
    ensures forall j | i < j < |index| && index[j].header.ftype != Other :: index[j].header.path != name
  {
    var n := |index| - 1;
    if index[n].header.path == name && index[n].header.ftype != Other {
      i := n;
    } else {
      i := LookupSome(index[..n], name);
    }
  }

  lemma {:induction false} PlacesHeaders(es: seq<Entry>, p: nat, i: nat)
    requires i < |es|
    ensures Places(es, p)[i].header == es[i].header
    decreases i
  {
    if i > 0 { PlacesHeaders(es[1..], p + BLOCK + Rounded(|es[0].data|), i - 1); }
  }

  /** A closed archive whose entries the walk can follow. */
  ghost predicate Closed(c: Codec, es: seq<Entry>, archive: seq<byte>) {
    && CodecOk(c) && Fit(c, es) && NoneOver(es) && InStep(es)
    && archive == Stream(c, es) + Zeros(2 * BLOCK)
  }

  /** tar2files finds the last file of each name, where its data is, whatever came short inside a last block. */
  lemma {:induction false} FoundAt(c: Codec, es: seq<Entry>, archive: seq<byte>, i: nat) returns (l: Located)
    requires Closed(c, es, archive) && LastOfName(es, i) && Backed(es, i)
    ensures Lookup(Index(c, archive, 0), es[i].header.path) == Some(l) && PointsAt(archive, l, es[i])
  {
    assert archive[0..] == archive;
    IndexOfStream(c, es, archive, 0);
    PlacesPoint(c, es, archive, i);
    var index := Places(es, 0);
    forall j | 0 <= j < |es|
      ensures index[j].header == es[j].header
    {
      PlacesHeaders(es, 0, j);
    }
    LookupAt(index, i);
    l := index[i];
  }

  /** The round trip: any part of the last file of a name is read back, with zeros for what never came. */
  lemma {:induction false} ReadBack(c: Codec, es: seq<Entry>, archive: seq<byte>, i: nat, path: string, offset: nat,
                                    size: nat)
    requires Closed(c, es, archive) && LastOfName(es, i) && Backed(es, i) && TrimSlashes(path) == es[i].header.path
    requires size <= READ_FILE_MAX_SIZE && offset + size <= es[i].header.size
    ensures ReadFile(archive, Index(c, archive, 0), path, offset, size) == Some(Extended(es[i])[offset..offset + size])
  {
    var l := FoundAt(c, es, archive, i);
    SliceOfSlice(archive, l.offset, es[i].header.size, offset, size);
  }

  /** A file read from the archive in chunks of at most 10 MiB, as it is sent on. */
  function ReadAll(archive: seq<byte>, index: seq<Located>, path: string, offset: nat, left: nat): (r: Option<seq<byte>>)
    ensures r.Some? ==> |r.value| == left
    decreases left
  {
    if left == 0 then Some([])
    else
      var n := if left < READ_FILE_MAX_SIZE then left else READ_FILE_MAX_SIZE;
      match ReadFile(archive, index, path, offset, n)
      case None => None
      case Some(d) =>
        match ReadAll(archive, index, path, offset + n, left - n)
        case None => None
        case Some(rest) => Some(d + rest)
  }

  /** If every chunk reads as a part of `data`, so does the whole. */
  lemma {:induction false} ReadAllOf(archive: seq<byte>, index: seq<Located>, path: string, data: seq<byte>,
                                     offset: nat, left: nat)
    requires offset + left == |data|
    requires forall o: nat, n: nat | o + n <= |data| && n <= READ_FILE_MAX_SIZE ::
               ReadFile(archive, index, path, o, n) == Some(data[o..o + n])
    ensures ReadAll(archive, index, path, offset, left) == Some(data[offset..])
    decreases left
  {
    if left > 0 {
      var n := if left < READ_FILE_MAX_SIZE then left else READ_FILE_MAX_SIZE;
      ReadAllOf(archive, index, path, data, offset + n, left - n);
      assert data[offset..offset + n] + data[offset + n..] == data[offset..];
    }
  }

  /** The whole file is read back; one that came in full as it came, whatever the others did. */
  lemma {:induction false} ReadAllBack(c: Codec, es: seq<Entry>, archive: seq<byte>, i: nat, path: string)
    requires Closed(c, es, archive) && LastOfName(es, i) && Backed(es, i) && TrimSlashes(path) == es[i].header.path
    ensures ReadAll(archive, Index(c, archive, 0), path, 0, es[i].header.size) == Some(Extended(es[i]))
    ensures Exact(es[i]) ==> Extended(es[i]) == es[i].data
  {
    var data := Extended(es[i]);
    forall o: nat, n: nat | o + n <= |data| && n <= READ_FILE_MAX_SIZE
      ensures ReadFile(archive, Index(c, archive, 0), path, o, n) == Some(data[o..o + n])
    {
      ReadBack(c, es, archive, i, path, o, n);
    }
    ReadAllOf(archive, Index(c, archive, 0), path, data, 0, |data|);
    assert data[0..] == data;
  }

  /** Whatever tar2files has, and serves in full, is the data of an entry. */
  lemma {:induction false} ServedEntry(c: Codec, es: seq<Entry>, archive: seq<byte>, path: string, data: seq<byte>)
    returns (i: nat)
    requires Closed(c, es, archive) && forall j | 0 <= j < |es| :: Exact(es[j])
    requires var l := Lookup(Index(c, archive, 0), TrimSlashes(path)); l.Some? && l.value.header.size == |data|
    requires ReadAll(archive, Index(c, archive, 0), path, 0, |data|) == Some(data)
    ensures i < |es| && es[i].header.path == TrimSlashes(path) && es[i].data == data
  {
    assert archive[0..] == archive;
    IndexOfStream(c, es, archive, 0);
    var index := Places(es, 0);
    i := LookupSome(index, TrimSlashes(path));
    forall j | 0 <= j < |es|
      ensures index[j].header == es[j].header
    {
      PlacesHeaders(es, 0, j);
    }
    ReadAllBack(c, es, archive, i, path);
  }

  /** What a successfully closed archive serves, if no file but the last lacks a whole block. */
  lemma ArchiveServes(tar: Archiver, i: nat, path: string)
    requires tar.Valid() && tar.closed && NoneOver(tar.entries) && InStep(tar.entries)
    requires LastOfName(tar.entries, i) && Backed(tar.entries, i) && TrimSlashes(path) == tar.entries[i].header.path
    ensures ReadAll(tar.out, Index(tar.codec, tar.out, 0), path, 0, tar.entries[i].header.size)
         == Some(Extended(tar.entries[i]))
  {
    assert OpenTar();
    ReadAllBack(tar.codec, tar.entries, tar.out, i, path);
  }

  /** Entries at the start of an archive, and at the end of a closed one, that are no files of the source. */
  function Extra(tar: Archiver): nat {
    if tar.prefix.Some? then 1 else 0
  }

  /**
   A closed archive: what it started with, the files `done` with what was read of them, and the information about the
   transfer if there is a prefix. With `full`, all of each file came.
   */
  ghost predicate Archived(tar: Archiver, first: seq<Entry>, done: seq<string>, contents: seq<seq<byte>>, full: bool)
    reads tar
  {
    var n := |tar.entries| - Extra(tar);
    && tar.Valid() && tar.closed && n >= 0
    && Progress(tar, first, tar.entries[..n], done, contents, full)
    && (tar.prefix.Some? ==> IsInfos(tar.entries[n]))
  }

  /** The entry with the information about the transfer. */
  ghost predicate IsInfos(e: Entry) {
    e.header.path == "infos.json" && e.header.ftype == Regular && Exact(e)
  }

  /** Each entry of a closed archive is one of these. */
  lemma ArchivedEntry(tar: Archiver, first: seq<Entry>, done: seq<string>, contents: seq<seq<byte>>, full: bool, i: nat)
    requires Archived(tar, first, done, contents, full) && i < |tar.entries|
    ensures |first| <= |first| + |done| == |contents| + |first| == |tar.entries| - Extra(tar)
    ensures i < |first| ==> tar.entries[i] == first[i]
    ensures |first| <= i < |first| + |done| ==>
              var e := tar.entries[i];
              && e.header.path == tar.NameOf(done[i - |first|]) && e.header.ftype in {Regular, Directory}
              && e.data == contents[i - |first|] && |e.data| <= e.header.size && (full ==> Exact(e))
    ensures i == |first| + |done| ==> tar.prefix.Some? && IsInfos(tar.entries[i])
  {
    var es := tar.entries[..|tar.entries| - Extra(tar)];
    if i < |first| {
      assert es[..|first|][i] == first[i];
    } else if i < |es| {
      assert es[|first| + (i - |first|)] == tar.entries[i];
    }
  }

  /** No later file of the source has the name of file `k`, nor has the information about the transfer. */
  ghost predicate LastDone(tar: Archiver, done: seq<string>, k: nat) {
    && k < |done| && (forall j | k < j < |done| :: tar.NameOf(done[j]) != tar.NameOf(done[k]))
    && (tar.prefix.Some? ==> tar.NameOf(done[k]) != "infos.json")
  }

  lemma ArchivedAll(tar: Archiver, first: seq<Entry>, done: seq<string>, contents: seq<seq<byte>>, full: bool, k: nat)
    requires Archived(tar, first, done, contents, full) && forall i | 0 <= i < |first| :: Exact(first[i])
    requires full || forall i | 0 <= i < |tar.entries| :: Fills(tar.entries[i])
    requires LastDone(tar, done, k)
    ensures |contents| == |done| && |first| + k < |tar.entries| && NoneOver(tar.entries) && InStep(tar.entries)
    ensures LastOfName(tar.entries, |first| + k) && Backed(tar.entries, |first| + k)
    ensures var e := tar.entries[|first| + k];
            e.header.path == tar.NameOf(done[k]) && e.data == contents[k] && (full ==> Exact(e))
  {
    var es, i := tar.entries, |first| + k;
    ArchivedEntry(tar, first, done, contents, full, 0);
    forall j | 0 <= j < |es|
      ensures |es[j].data| <= es[j].header.size && Fills(es[j])
      ensures j > i && es[j].header.ftype != Other ==> es[j].header.path != tar.NameOf(done[k])
    {
      ArchivedEntry(tar, first, done, contents, full, j);
    }
    ArchivedEntry(tar, first, done, contents, full, i);
  }

  /**
   From the source to tar2files: what was read of a file is what is served under its name, with zeros for bytes inside
   its last block that never came. A file that came in full, among others that did, is served as it was read.
   */
  lemma SourceServed(tar: Archiver, first: seq<Entry>, done: seq<string>, contents: seq<seq<byte>>, full: bool, k: nat,
                     path: string)
    requires Archived(tar, first, done, contents, full) && forall i | 0 <= i < |first| :: Exact(first[i])
    requires full || forall i | 0 <= i < |tar.entries| :: Fills(tar.entries[i])
    requires LastDone(tar, done, k) && TrimSlashes(path) == tar.NameOf(done[k])
    ensures |contents| == |done| && |first| + k < |tar.entries|
    ensures var size := tar.entries[|first| + k].header.size;
            && |contents[k]| <= size && (full ==> |contents[k]| == size)
            && ReadAll(tar.out, Index(tar.codec, tar.out, 0), path, 0, size)
            == Some(contents[k] + Zeros(size - |contents[k]|))
    ensures full ==>
              ReadAll(tar.out, Index(tar.codec, tar.out, 0), path, 0, |contents[k]|) == Some(contents[k])
  {
    ArchivedAll(tar, first, done, contents, full, k);
    ArchiveServes(tar, |first| + k, path);
    assert contents[k] + [] == contents[k];
  }

  /** tar2files serves `data` for the file that was archived under `name`. */
  ghost predicate Served(tar: Archiver, name: string, data: seq<byte>)
    reads tar
  {
    forall path | TrimSlashes(path) == tar.NameOf(name) ::
      ReadAll(tar.out, Index(tar.codec, tar.out, 0), path, 0, |data|) == Some(data)
  }

  /** With the prefix that files2tar uses, a file's name is never that of the information about the transfer. */
  lemma DataPrefix(tar: Archiver, path: string)
    requires tar.prefix == Some("data/")
    ensures tar.NameOf(path) != "infos.json"
  {
    assert tar.NameOf(path)[0] == 'd';
  }

  /**
   Two files, the first short by a whole block, the second complete: the walk steps over the second header, so the
   second file is not served, and the first is served with that header for its contents.
   */
  lemma LostFile(c: Codec, a: Header, b: Header, d: seq<byte>)
    requires CodecOk(c) && c.fits(a) && c.fits(b) && a.size == b.size == |d| == BLOCK && c.dec(d) == None
    requires a.ftype == b.ftype == Regular && TrimSlashes(a.path) == a.path && TrimSlashes(b.path) == b.path != a.path
    ensures var archive := Stream(c, [Entry(a, []), Entry(b, d)]) + Zeros(2 * BLOCK);
            var index := Index(c, archive, 0);
            && index == [Located(a, BLOCK)]
            && ReadAll(archive, index, b.path, 0, BLOCK) == None
            && ReadAll(archive, index, a.path, 0, BLOCK) == Some(c.enc(b))
  {
    var es := [Entry(a, []), Entry(b, d)];
    var archive := Stream(c, es) + Zeros(2 * BLOCK);
    assert archive[0..] == archive;
    FirstEntry(c, es, archive, 0);
    SecondHeader(c, a, b, d, archive);
    assert Rounded(BLOCK) == BLOCK;
    assert Index(c, archive, 2 * BLOCK) == [];
    var index := Index(c, archive, 0);
    assert index == [Located(a, BLOCK)];
    assert index[..0] == [];
    assert Lookup(index, a.path) == Some(index[0]) && Lookup(index, b.path) == None;
    assert ReadAll(archive, index, a.path, BLOCK, 0) == Some([]);
    assert c.enc(b) + [] == c.enc(b);
  }

  lemma SecondHeader(c: Codec, a: Header, b: Header, d: seq<byte>, archive: seq<byte>)
    requires CodecOk(c) && c.fits(a) && c.fits(b) && |d| == BLOCK
    requires archive == Stream(c, [Entry(a, []), Entry(b, d)]) + Zeros(2 * BLOCK)
    ensures 3 * BLOCK <= |archive| && archive[BLOCK..2 * BLOCK] == c.enc(b) && archive[2 * BLOCK..3 * BLOCK] == d
  {
    StreamCons(c, Entry(a, []), [Entry(b, d)]);
    StreamCons(c, Entry(b, d), []);
    assert [Entry(a, [])] + [Entry(b, d)] == [Entry(a, []), Entry(b, d)] && [Entry(b, d)] + [] == [Entry(b, d)];
    assert archive == c.enc(a) + c.enc(b) + d + Zeros(2 * BLOCK);
    assert archive[0..] == archive;
    Parts(archive, 0, c.enc(a), c.enc(b), d, Zeros(2 * BLOCK));
    assert archive[2 * BLOCK..3 * BLOCK] == d;
  }
}
