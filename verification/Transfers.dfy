/** What goes over the wires of a transfer: reading a file in chunks and sending it on, and the order of requests. */
module Transfers {
  import opened Options
  import opened Expansion
  import opened FatCodec
  import opened Protocol
  import opened TarArchive
  import opened TarLeg

  /** A path as it is given to the children. */
  function Spell(path: Path): string {
    if path == [] then "" else Spell(path[..|path| - 1]) + "/" + path[|path| - 1]
  }

  function Spelled(paths: seq<Path>): (r: seq<string>)
    ensures |r| == |paths| && forall i | 0 <= i < |paths| :: r[i] == Spell(paths[i])
  {
    seq(|paths|, i requires 0 <= i < |paths| => Spell(paths[i]))
  }

  // ---- from the archive to files2fs ----

  /** Requests that write `data` to a file, from its start to its end, in chunks of at most 10 MiB. */
  ghost predicate InOrder(es: seq<Event>, path: Path, data: seq<byte>) {
    if es == [] then data == []
    else
      var e := es[|es| - 1];
      && e.Request? && e.child == Files2fs && e.ask.WriteFile? && e.ask.path == path
      && 0 < |e.ask.data| <= READ_FILE_MAX_SIZE && e.ask.offset + |e.ask.data| == |data|
      && e.ask.data == data[e.ask.offset..] && InOrder(es[..|es| - 1], path, data[..e.ask.offset])
  }

  lemma InOrderSnoc(es: seq<Event>, path: Path, data: seq<byte>, more: seq<byte>)
    requires InOrder(es, path, data) && 0 < |more| <= READ_FILE_MAX_SIZE
    ensures InOrder(es + [Request(Files2fs, WriteFile(path, |data|, more))], path, data + more)
  {
    var es' := es + [Request(Files2fs, WriteFile(path, |data|, more))];
    assert es'[..|es'| - 1] == es && (data + more)[|data|..] == more && (data + more)[..|data|] == data;
  }

  function Whole(path: Path, parts: seq<Event>): seq<Event> {
    [Request(Files2fs, NewFile(path, true))] + parts + [Request(Files2fs, EndFile(path))]
  }

  lemma WholeStarts(path: Path, parts: seq<Event>)
    ensures var start := [Request(Files2fs, NewFile(path, true))];
            start <= Whole(path, parts) && start + parts <= Whole(path, parts)
  {
  }

  lemma Associates(a: seq<Event>, b: seq<Event>, c: seq<Event>)
    ensures a + b + c == a + (b + c)
  {
  }

  lemma WholeCopy(path: Path, parts: seq<Event>, data: seq<byte>)
    requires InOrder(parts, path, data)
    ensures IsCopy(Whole(path, parts), path, data)
  {
    var es := Whole(path, parts);
    assert es[1..|es| - 1] == parts;
  }

  lemma AboutWhole(path: Path, parts: seq<Event>, es: seq<Event>)
    requires About(parts, path) && es <= Whole(path, parts)
    ensures About(es, path)
  {
    forall e | e in es
      ensures e in parts || e == Request(Files2fs, NewFile(path, true)) || e == Request(Files2fs, EndFile(path))
    {
    }
  }

  /** A whole file: its start, its data in order, its end. */
  ghost predicate IsCopy(es: seq<Event>, path: Path, data: seq<byte>) {
    && |es| >= 2 && es[0] == Request(Files2fs, NewFile(path, true)) && es[|es| - 1] == Request(Files2fs, EndFile(path))
    && InOrder(es[1..|es| - 1], path, data)
  }

  /** Nothing but requests about one file. */
  ghost predicate About(es: seq<Event>, path: Path) {
    forall e | e in es ::
      && e.Request? && e.child == Files2fs
      && (e.ask == NewFile(path, true) || (e.ask.WriteFile? && e.ask.path == path) || e.ask == EndFile(path))
  }

  /** Size of the file that tar2files has under a name. */
  function SizeIn(index: seq<Located>, path: string): Option<nat> {
    match Lookup(index, TrimSlashes(path))
    case None => None
    case Some(l) => Some(l.header.size)
  }

  /** `assert OpenSend();` lets the verifier look at what was sent. */
  ghost predicate OpenSend(i: int := 0) {
    true
  }

  /** A file was copied as tar2files has it, or failed. */
  ghost predicate PartOk(index: seq<Located>, archive: seq<byte>, es: seq<Event>, path: Path, copied: bool,
                         data: seq<byte>) {
    forall i {:trigger OpenSend(i)} :: OpenSend(i) ==>
      if copied then
        && IsCopy(es, path, data) && SizeIn(index, Spell(path)) == Some(|data|)
        && ReadAll(archive, index, Spell(path), 0, |data|) == Some(data)
      else About(es, path)
  }

  lemma PartIs(index: seq<Located>, archive: seq<byte>, path: Path, parts: seq<Event>, data: seq<byte>, es: seq<Event>,
               ok: bool)
    requires ok ==> InOrder(parts, path, data) && SizeIn(index, Spell(path)) == Some(|data|)
    requires ok ==> ReadAll(archive, index, Spell(path), 0, |data|) == Some(data)
    requires About(parts, path)
    requires if ok then es == Whole(path, parts) else es <= Whole(path, parts)
    ensures PartOk(index, archive, es, path, ok, data) == true
  {
    AboutWhole(path, parts, es);
    if ok { WholeCopy(path, parts, data); }
  }

  /** The chunks `data` are read, up to `offset`; the rest decides about the whole. */
  ghost predicate Continues(archive: seq<byte>, index: seq<Located>, path: string, data: seq<byte>, offset: nat,
                            left: nat, size: nat) {
    ReadAll(archive, index, path, 0, size)
    == match ReadAll(archive, index, path, offset, left)
       case None => None
       case Some(rest) => Some(data + rest)
  }

  lemma ContinuesNext(archive: seq<byte>, index: seq<Located>, path: string, data: seq<byte>, offset: nat, left: nat,
                      size: nat, n: nat, part: seq<byte>)
    requires Continues(archive, index, path, data, offset, left, size) && left > 0
    requires n == if left < READ_FILE_MAX_SIZE then left else READ_FILE_MAX_SIZE
    requires ReadFile(archive, index, path, offset, n) == Some(part)
    ensures |part| == n && Continues(archive, index, path, data + part, offset + n, left - n, size)
  {
    match ReadAll(archive, index, path, offset + n, left - n)
    case None =>
    case Some(rest) => assert data + (part + rest) == data + part + rest;
  }

  /** Up to `offset` the file was sent; `es` are the requests. */
  ghost predicate SentSoFar(archive: seq<byte>, index: seq<Located>, path: Path, es: seq<Event>, data: seq<byte>,
                            offset: nat, left: nat, size: nat, ok: bool) {
    forall i {:trigger OpenSend(i)} :: OpenSend(i) ==>
      && About(es, path)
      && (ok ==>
            && offset + left == size && |data| == offset && InOrder(es, path, data)
            && Continues(archive, index, Spell(path), data, offset, left, size))
  }

  lemma SentStart(archive: seq<byte>, index: seq<Located>, path: Path, size: nat)
    ensures SentSoFar(archive, index, path, [], [], 0, size, size, true) == true
  {
    match ReadAll(archive, index, Spell(path), 0, size)
    case None =>
    case Some(rest) => assert [] + rest == rest;
  }

  lemma SentNext(archive: seq<byte>, index: seq<Located>, path: Path, es: seq<Event>, data: seq<byte>,
                 offset: nat, left: nat, size: nat, ok: bool, part: seq<byte>, more: seq<Event>)
    requires SentSoFar(archive, index, path, es, data, offset, left, size, true) && left > 0 && About(more, path)
    requires var n := if left < READ_FILE_MAX_SIZE then left else READ_FILE_MAX_SIZE;
             ok ==> ReadFile(archive, index, Spell(path), offset, n) == Some(part)
                    && more == [Request(Files2fs, WriteFile(path, offset, part))]
    ensures var n := if left < READ_FILE_MAX_SIZE then left else READ_FILE_MAX_SIZE;
            SentSoFar(archive, index, path, es + more, data + part, offset + n, left - n, size, ok) == true
  {
    assert OpenSend();
    if ok {
      ContinuesNext(archive, index, Spell(path), data, offset, left, size,
                    if left < READ_FILE_MAX_SIZE then left else READ_FILE_MAX_SIZE, part);
      InOrderSnoc(es, path, data, part);
    }
  }

  lemma SentUntil(archive: seq<byte>, index: seq<Located>, path: Path, es: seq<Event>, data: seq<byte>,
                  offset: nat, left: nat, size: nat)
    requires SentSoFar(archive, index, path, es, data, offset, left, size, true)
    ensures SentSoFar(archive, index, path, es, data, offset, left, size, false) == true
  {
    assert OpenSend();
  }

  lemma SentAll(archive: seq<byte>, index: seq<Located>, path: Path, es: seq<Event>, data: seq<byte>, offset: nat,
                left: nat, size: nat, ok: bool)
    requires SentSoFar(archive, index, path, es, data, offset, left, size, ok) && (ok ==> left == 0)
    ensures About(es, path)
    ensures ok ==> |data| == size && InOrder(es, path, data)
    ensures ok ==> ReadAll(archive, index, Spell(path), 0, size) == Some(data)
  {
    assert OpenSend();
    assert data + [] == data;
  }

  function Joined(parts: seq<seq<Event>>): seq<Event> {
    if parts == [] then [] else Joined(parts[..|parts| - 1]) + parts[|parts| - 1]
  }

  lemma JoinedSnoc(parts: seq<seq<Event>>, part: seq<Event>)
    ensures Joined(parts + [part]) == Joined(parts) + part
  {
    assert (parts + [part])[..|parts|] == parts;
  }

  /** The requests for the directories, in order. */
  function DirActs(dirs: seq<Path>): (r: seq<Event>)
    ensures |r| == |dirs| && forall i | 0 <= i < |dirs| :: r[i] == Request(Files2fs, NewFile(dirs[i], false))
  {
    seq(|dirs|, i requires 0 <= i < |dirs| => Request(Files2fs, NewFile(dirs[i], false)))
  }

  /** The requests of a transfer, file by file: which were copied, what was asked, and the data. */
  datatype Sending = Sending(marks: seq<bool>, parts: seq<seq<Event>>, datas: seq<seq<byte>>)

  ghost predicate SendingOk(index: seq<Located>, archive: seq<byte>, files: seq<Path>, s: Sending) {
    && |s.marks| == |s.parts| == |s.datas| == |files|
    && forall i {:trigger OpenSend(i)} :: OpenSend(i) ==> AllOk(index, archive, files, s)
  }

  ghost predicate AllOk(index: seq<Located>, archive: seq<byte>, files: seq<Path>, s: Sending)
    requires |s.marks| == |s.parts| == |s.datas| == |files|
  {
    forall i | 0 <= i < |files| :: PartOk(index, archive, s.parts[i], files[i], s.marks[i], s.datas[i])
  }

  lemma SendingNone(index: seq<Located>, archive: seq<byte>)
    ensures SendingOk(index, archive, [], Sending([], [], [])) == true
  {
  }

  lemma SendingSnoc(index: seq<Located>, archive: seq<byte>, files: seq<Path>, s: Sending, f: Path, copied: bool,
                    part: seq<Event>, data: seq<byte>)
    requires SendingOk(index, archive, files, s) && PartOk(index, archive, part, f, copied, data)
    ensures var s' := Sending(s.marks + [copied], s.parts + [part], s.datas + [data]);
            SendingOk(index, archive, files + [f], s') == true
    ensures Joined(s.parts + [part]) == Joined(s.parts) + part
  {
    assert OpenSend();
    JoinedSnoc(s.parts, part);
  }

  // ---- the bit vector ----

  /** The chunks that files2fs gives, as they are loaded; only the last one is marked so. */
  function Loads(chunks: seq<seq<byte>>, n: nat): (r: seq<Event>)
    requires n <= |chunks|
    ensures |r| == n && forall i | 0 <= i < n :: r[i] == Request(Fs2dev, LoadBits(chunks[i], i == |chunks| - 1))
  {
    seq(n, i requires 0 <= i < n => Request(Fs2dev, LoadBits(chunks[i], i == |chunks| - 1)))
  }

  lemma LoadsNext(acts: seq<Event>, was: seq<Event>, chunks: seq<seq<byte>>, i: nat)
    requires i < |chunks|
    requires acts == was + Loads(chunks, i) + [Request(Fs2dev, LoadBits(chunks[i], i == |chunks| - 1))]
    ensures acts == was + Loads(chunks, i + 1)
  {
  }

  /** The requests of a transfer that was done: directories, files, the bit vector, and the start of the copy. */
  ghost predicate Wrote(index: seq<Located>, archive: seq<byte>, dirs: seq<Path>, files: seq<Path>, errors: seq<Path>,
                        s: Sending, chunks: seq<seq<byte>>, before: seq<Event>, acts: seq<Event>) {
    && SendingOk(index, archive, files, s) && errors == Marked(files, s.marks, false)
    && forall i {:trigger OpenSend(i)} :: OpenSend(i) ==>
         acts == before + DirActs(dirs) + Joined(s.parts) + Loads(chunks, |chunks|) + [Request(Fs2dev, StartCopy)]
  }

  lemma WroteIs(index: seq<Located>, archive: seq<byte>, dirs: seq<Path>, files: seq<Path>, errors: seq<Path>,
                s: Sending, chunks: seq<seq<byte>>, before: seq<Event>, mid: seq<Event>, acts: seq<Event>)
    requires SendingOk(index, archive, files, s) && errors == Marked(files, s.marks, false)
    requires mid == before + DirActs(dirs) + Joined(s.parts)
    requires acts == mid + Loads(chunks, |chunks|) + [Request(Fs2dev, StartCopy)]
    ensures Wrote(index, archive, dirs, files, errors, s, chunks, before, acts) == true
  {
  }

  // ---- from the source ----

  /** What was read of each file is the beginning of it. */
  ghost predicate FromSource(source: string -> seq<byte>, done: seq<string>, contents: seq<seq<byte>>) {
    |contents| == |done| && forall i | 0 <= i < |done| :: contents[i] <= source(done[i])
  }

  /** What was read from the source: which files the archive has, and what came of them. */
  datatype Reading = Reading(first: seq<Entry>, marks: seq<bool>, contents: seq<seq<byte>>, full: bool)

  /** A closed archive of some of the paths; if all came in full, of what the source has. */
  ghost predicate Made(tar: Archiver, source: string -> seq<byte>, paths: seq<Path>, r: Reading)
    reads tar
  {
    && |r.marks| == |paths|
    && forall i {:trigger OpenSend(i)} :: OpenSend(i) ==>
         var done := Marked(Spelled(paths), r.marks, true);
         && |r.first| == Extra(tar) && Archived(tar, r.first, done, r.contents, r.full)
         && (r.full ==> FromSource(source, done, r.contents))
  }

  lemma MadeIs(tar: Archiver, source: string -> seq<byte>, paths: seq<Path>, r: Reading)
    requires |r.marks| == |paths| && |r.first| == Extra(tar)
    requires var done := Marked(Spelled(paths), r.marks, true);
             && Archived(tar, r.first, done, r.contents, r.full)
             && (r.full ==> FromSource(source, done, r.contents))
    ensures Made(tar, source, paths, r) == true
  {
  }

  /** The data is the beginning of what the source has in a file of that name. */
  ghost predicate Arrived(source: string -> seq<byte>, paths: seq<Path>, path: Path, data: seq<byte>) {
    exists p | p in paths :: TrimSlashes(Spell(p)) == TrimSlashes(Spell(path)) && data <= source(Spell(p))
  }

  /** A name that was read is that of one of the paths. */
  lemma {:induction false} MarkedPath(paths: seq<Path>, marks: seq<bool>, k: nat) returns (p: Path)
    requires |marks| == |paths| && k < |Marked(Spelled(paths), marks, true)|
    ensures p in paths && Marked(Spelled(paths), marks, true)[k] == Spell(p)
  {
    var n := |paths| - 1;
    assert Spelled(paths)[..n] == Spelled(paths[..n]);
    if k < |Marked(Spelled(paths[..n]), marks[..n], true)| {
      p := MarkedPath(paths[..n], marks[..n], k);
    } else {
      p := paths[n];
    }
  }

  /** From the source to files2fs: a file that was copied has the data that the source has. */
  lemma {:induction false} CopiedFromSource(tar: Archiver, source: string -> seq<byte>, paths: seq<Path>, r: Reading,
                                            es: seq<Event>, path: Path, data: seq<byte>)
    requires Made(tar, source, paths, r) && r.full && tar.prefix == None
    requires PartOk(Index(tar.codec, tar.out, 0), tar.out, es, path, true, data)
    ensures Arrived(source, paths, path, data)
  {
    assert OpenSend() && OpenTar();
    var done := Marked(Spelled(paths), r.marks, true);
    forall j | 0 <= j < |tar.entries|
      ensures Exact(tar.entries[j])
    {
      ArchivedEntry(tar, r.first, done, r.contents, true, j);
    }
    var i := ServedEntry(tar.codec, tar.entries, tar.out, Spell(path), data);
    ArchivedEntry(tar, r.first, done, r.contents, true, i);
    var p := MarkedPath(paths, r.marks, i);
  }
}
