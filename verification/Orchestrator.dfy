/** The parent process: its states, what it asks its children, and when it unlocks them. */
module Orchestrator {
  import opened Options
  import opened Expansion
  import opened FatCodec
  import opened Protocol
  import opened TarArchive
  import opened TarLeg
  import opened Transfers

  datatype Destination = Usb(fsType: Option<FsKind>) | Net | Cmd

  datatype FsKind = Fat | Exfat | Ntfs

  /** What the client sends. */
  datatype Msg =
    | Id | Devices | OpenDevice(given: bool) | Wipe(quick: bool) | ImgDisk(given: bool) | Partitions | OpenPartition
    | GetAttr | ReadDir | CopyStart(selected: seq<Path>, to: Option<Destination>) | PostCopyCmd | End | Malformed

  datatype State =
    | Init | DevOpened | PartitionOpened
    | CopyFiles(selected: seq<Path>, to: Destination)
    | WriteFiles(files: seq<Path>, dirs: seq<Path>)
    | UploadOrCmd(net: bool) | TransferDone | WipeDevice(quick: bool) | ImageDisk | WaitEnd | Ended

  /** The states that wait for the client before a copy or a wipe. */
  predicate Idle(s: State) {
    s in {Init, DevOpened, PartitionOpened}
  }

  ghost function ToSet(s: seq<Path>): set<Path> {
    set p | p in s
  }

  /** The id after an answer to the request for one. */
  function NewId(id: Option<string>, reply: Option<string>): Option<string> {
    if reply.Some? && reply.value != "" then reply else id
  }

  /** The way to a copy: where a message leads on it, if it does. */
  function Goes(s: State, id: Option<string>, m: Msg, reply: Option<string>): Option<State> {
    if s == Init && m == OpenDevice(true) && reply.Some? then Some(DevOpened)
    else if s == DevOpened && m.OpenPartition? && reply.Some? then Some(PartitionOpened)
    else if s == PartitionOpened && m.CopyStart? && m.to.Some? && id.Some? then Some(CopyFiles(m.selected, m.to.value))
    else None
  }

  /** The name of an entry is that of one of the paths. */
  ghost predicate NamedAfter(tar: Archiver, e: Entry, paths: set<Path>) {
    exists p | p in paths :: e.header.path == tar.NameOf(Spell(p))
  }

  /** A closed archive has only files of the given paths. */
  ghost predicate HasOnly(tar: Archiver, paths: set<Path>)
    reads tar
  {
    tar.closed ==> forall i | Extra(tar) <= i < |tar.entries| - Extra(tar) :: NamedAfter(tar, tar.entries[i], paths)
  }

  lemma HasOnlyMore(tar: Archiver, paths: set<Path>, more: set<Path>)
    requires HasOnly(tar, paths)
    ensures HasOnly(tar, paths + more)
  {
    if tar.closed {
      forall i | Extra(tar) <= i < |tar.entries| - Extra(tar)
        ensures NamedAfter(tar, tar.entries[i], paths + more)
      {
        assert NamedAfter(tar, tar.entries[i], paths);
        var p :| p in paths && tar.entries[i].header.path == tar.NameOf(Spell(p));
        assert p in paths + more;
      }
    }
  }

  /** The elements that are marked, and the others, each in order. */
  method Parted(paths: seq<Path>, marks: seq<bool>) returns (kept: seq<Path>, dropped: seq<Path>)
    requires |marks| == |paths|
    ensures kept == Marked(paths, marks, true) && dropped == Marked(paths, marks, false)
  {
    kept, dropped := [], [];
    var i := 0;
    while i < |paths|
      invariant 0 <= i <= |paths|
      invariant kept == Marked(paths[..i], marks[..i], true) && dropped == Marked(paths[..i], marks[..i], false)
    {
      MarkedTake(paths, marks, i);
      if marks[i] { kept := kept + [paths[i]]; } else { dropped := dropped + [paths[i]]; }
      i := i + 1;
    }
    assert paths[..i] == paths && marks[..i] == marks;
  }

  /** The filter answered for each of the paths. */
  predicate Answers(reply: Option<seq<bool>>, paths: seq<Path>) {
    reply.Some? && |reply.value| == |paths|
  }

  lemma MarkedTake<T>(s: seq<T>, marks: seq<bool>, i: nat)
    requires i < |s| == |marks|
    ensures Marked(s[..i + 1], marks[..i + 1], true)
         == Marked(s[..i], marks[..i], true) + if marks[i] then [s[i]] else []
    ensures Marked(s[..i + 1], marks[..i + 1], false)
         == Marked(s[..i], marks[..i], false) + if marks[i] then [] else [s[i]]
  {
    assert s[..i + 1] == s[..i] + [s[i]] && marks[..i + 1] == marks[..i] + [marks[i]];
    MarkedSnoc(s[..i], marks[..i], s[i], marks[i], true);
    MarkedSnoc(s[..i], marks[..i], s[i], marks[i], false);
    assert Marked(s[..i], marks[..i], true) + [] == Marked(s[..i], marks[..i], true);
    assert Marked(s[..i], marks[..i], false) + [] == Marked(s[..i], marks[..i], false);
  }

  lemma MarkedNext<T>(s: seq<T>, marks: seq<bool>, i: nat, m: bool)
    requires i < |s| && |marks| == i
    ensures Marked(s[..i + 1], marks + [m], true)
         == if m then Marked(s[..i], marks, true) + [s[i]] else Marked(s[..i], marks, true)
    ensures Marked(s[..i + 1], marks + [m], false)
         == if m then Marked(s[..i], marks, false) else Marked(s[..i], marks, false) + [s[i]]
  {
    assert s[..i + 1] == s[..i] + [s[i]];
    MarkedSnoc(s[..i], marks, s[i], m, true);
    MarkedSnoc(s[..i], marks, s[i], m, false);
  }

  lemma {:induction false} MarkedIn<T>(s: seq<T>, marks: seq<bool>, x: T)
    requires |marks| == |s| && x in Marked(s, marks, true)
    ensures x in s
  {
    if s != [] && x in Marked(s[..|s| - 1], marks[..|s| - 1], true) {
      MarkedIn(s[..|s| - 1], marks[..|s| - 1], x);
    }
  }

  lemma KeptIn(s: seq<Path>, marks: seq<bool>)
    requires |marks| == |s|
    ensures forall p | p in Marked(s, marks, true) :: p in s
  {
    forall p | p in Marked(s, marks, true)
      ensures p in s
    {
      MarkedIn(s, marks, p);
    }
  }

  /** What the expansion of a selection says about its lists. */
  ghost predicate Listed(d: Device, selected: seq<Path>, ok: bool, files: seq<Path>, dirs: seq<Path>) {
    && NoDuplicates(files) && (forall f | f in files :: IsFile(d, f) && Reached(d, selected, f))
    && (forall p | p in dirs ::
          (IsDir(d, p) && Reached(d, selected, p)) || exists q | Reached(d, selected, q) :: IsAbove(p, q))
    && (ok ==> forall f | IsFile(d, f) && Reached(d, selected, f) :: f in files)
    && (!ok ==> exists p :: IsDir(d, p) && p !in d.kids && Reached(d, selected, p))
  }

  /** Of a selected file nothing else is reached. */
  lemma OnlyItself(d: Device, f: Path, p: Path)
    requires IsFile(d, f) && Reached(d, [f], p)
    ensures p == f
  {
    assert Reaches(d, f, p);
    if p != f { ReachesStep(d, f, p); }
  }

  lemma OnceOnly(files: seq<Path>, f: Path)
    requires NoDuplicates(files) && f in files && forall i | 0 <= i < |files| :: files[i] == f
    ensures files == [f]
  {
    if |files| > 1 { FirstTwo(files); }
  }

  lemma FirstTwo(files: seq<Path>)
    requires NoDuplicates(files) && |files| > 1
    ensures files[0] != files[1]
  {
  }

  /** A file at the top of the device, selected alone. */
  lemma OneFile(d: Device, name: string, ok: bool, files: seq<Path>, dirs: seq<Path>)
    requires IsFile(d, [name]) && Listed(d, [[name]], ok, files, dirs)
    ensures ok && files == [[name]] && dirs == [] && SizeSum(d, files) == d.attr[[name]].size
  {
    var f := [name];
    if !ok {
      var p :| IsDir(d, p) && p !in d.kids && Reached(d, [f], p);
      OnlyItself(d, f, p);
    }
    assert Reaches(d, [f][0], f);
    assert f in files;
    forall i | 0 <= i < |files|
      ensures files[i] == f
    {
      OnlyItself(d, f, files[i]);
    }
    if dirs != [] {
      var p := dirs[0];
      if IsDir(d, p) && Reached(d, [f], p) {
        OnlyItself(d, f, p);
      } else {
        var q :| Reached(d, [f], q) && IsAbove(p, q);
        OnlyItself(d, f, q);
      }
    }
    OnceOnly(files, f);
    assert files[..0] == [];
  }

  /** What was archived of the given paths has their names. */
  lemma DoneOnly(tar: Archiver, first: seq<Entry>, es: seq<Entry>, paths: seq<Path>, marks: seq<bool>,
                 contents: seq<seq<byte>>, full: bool, passed: set<Path>)
    requires |marks| == |paths| && Progress(tar, first, es, Marked(Spelled(paths), marks, true), contents, full)
    requires forall p | p in paths :: p in passed
    ensures forall i | |first| <= i < |es| :: NamedAfter(tar, es[i], passed)
  {
    var done := Marked(Spelled(paths), marks, true);
    forall i | |first| <= i < |es|
      ensures NamedAfter(tar, es[i], passed)
    {
      var name := done[i - |first|];
      assert es[|first| + (i - |first|)].header.path == tar.NameOf(name);
      MarkedIn(Spelled(paths), marks, name);
      var k :| 0 <= k < |paths| && Spelled(paths)[k] == name;
      assert paths[k] in paths;
    }
  }

  /** The files on the clean list, in order. */
  ghost function Clean(files: seq<Path>, clean: set<Path>): seq<Path> {
    if files == [] then []
    else
      var f := files[|files| - 1];
      Clean(files[..|files| - 1], clean) + if f in clean then [f] else []
  }

  lemma {:induction false} CleanIn(files: seq<Path>, clean: set<Path>)
    ensures forall p :: p in Clean(files, clean) <==> p in files && p in clean
  {
    if files != [] {
      CleanIn(files[..|files| - 1], clean);
      assert files == files[..|files| - 1] + [files[|files| - 1]];
    }
  }

  /** Only the files on the clean list stay. */
  method Retain(files: seq<Path>, clean: set<Path>) returns (kept: seq<Path>)
    ensures kept == Clean(files, clean)
  {
    kept := [];
    var i := 0;
    while i < |files|
      invariant 0 <= i <= |files| && kept == Clean(files[..i], clean)
    {
      assert files[..i + 1][..i] == files[..i];
      if files[i] in clean { kept := kept + [files[i]]; }
      i := i + 1;
    }
    assert files[..i] == files;
  }

  /** The last requests of a run. */
  const ENDS: seq<Event> := [
    Request(Files2fs, EndAsk), Request(Files2tar, EndAsk), Request(Fs2dev, EndAsk), Request(Tar2files, EndAsk)]

  ghost predicate EndsAll(acts: seq<Event>) {
    exists before :: acts == before + ENDS
  }

  class Usbsas {
    const analyzer: bool
    const device: Device
    const tar: Archiver
    const source: string -> seq<byte>  // what the files of the source device hold
    var state: State
    var id: Option<string>
    var lockedTar: bool
    var lockedDev: bool
    var lockedTar2: bool
    ghost var trace: seq<Event>
    ghost var facts: Facts
    ghost var acts: seq<Event>  // the requests in the trace that are not plain

    /** The flags say who was unlocked, no child was spoken to too early, and no file let through. */
    ghost predicate Steady()
      reads this
    {
      && Tells(analyzer, trace, facts) == true && facts.analyzer == analyzer && ActsOf(trace, acts) == true
      && !facts.early && !facts.wrong
      && (lockedDev <==> facts.dev == 0) && facts.dev <= 1
      && (lockedTar2 <==> facts.tar2 == 0) && facts.tar2 <= 1
      && (if facts.badFs then facts.tar == 1 && lockedTar else (lockedTar <==> facts.tar == 0) && facts.tar <= 1)
      && (id.Some? ==> id.value != "")
    }

    /** And the archive has only what passed the filter. */
    ghost predicate Sound()
      reads this, tar
    {
      Steady() && HasOnly(tar, facts.pathsOk)
    }

    ghost predicate Untouched()
      reads this, tar
    {
      && tar.Valid() && tar.state == Waiting && |tar.entries| == Extra(tar)
      && lockedTar && lockedDev && lockedTar2 && !facts.badFs && facts.clean == None
    }

    /** What is known in each state. */
    ghost predicate Valid()
      reads this, tar
    {
      match state
      case CopyFiles(_, _) => Sound() && Untouched() && facts.copying
      case WriteFiles(files, _) =>
        && Sound() && facts.copying && !facts.badFs && !lockedTar && !lockedDev && !lockedTar2
        && forall p | p in files :: p in facts.expanded && p in facts.pathsOk
      case UploadOrCmd(_) => Sound() && lockedDev
      case TransferDone => Sound()
      case WaitEnd => Sound()
      case Ended =>
        && Tells(analyzer, trace, facts) == true && ActsOf(trace, acts) == true && !facts.early && !facts.wrong
        && HasOnly(tar, facts.pathsOk) && EndsAll(acts)
        && facts.dev == 1 && facts.tar2 == 1 && facts.tar == (if facts.badFs then 2 else 1)
      case _ => Sound() && Untouched() && !facts.copying
    }

    constructor (analyzer: bool, device: Device, source: string -> seq<byte>, tar: Archiver)
      requires tar.Valid() && tar.state == Waiting && |tar.entries| == Extra(tar)
      ensures Valid() && state == Init && this.analyzer == analyzer && this.device == device && trace == []
      ensures this.tar == tar && this.source == source
    {
      this.analyzer, this.device, this.source, this.tar, state, id := analyzer, device, source, tar, Init, None;
      lockedTar, lockedDev, lockedTar2 := true, true, true;
      trace := [];
      facts := FactsOf(analyzer, []);
      acts := [];
    }

    ghost method Emit(e: Event)
      requires Tells(analyzer, trace, facts) && ActsOf(trace, acts)
      modifies this`trace, this`facts, this`acts
      ensures trace == old(trace) + [e] && facts == Update(old(facts), e) && Tells(analyzer, trace, facts) == true
      ensures acts == old(acts) + Acts(e) && ActsOf(trace, acts) == true
    {
      TellsSnoc(analyzer, trace, facts, e);
      ActsSnoc(trace, acts, e);
      trace := trace + [e];
      facts := Update(facts, e);
      acts := acts + Acts(e);
    }

    /** A framed request to a child that is not locked; it may answer with an error. */
    method Call(c: Child, a: Ask) returns (ok: bool)
      requires Steady() && Unlocks(facts, c) > 0 && !Unsafe(facts, c, a)
      modifies this`trace, this`facts, this`acts
      ensures Steady() && facts == old(facts) && acts == old(acts) + Acts(Request(c, a))
    {
      Emit(Request(c, a));
      ok := *;
    }

    /** Any number of requests in a row, up to an error. */
    method Calls(c: Child) returns (ok: bool)
      requires Steady() && Unlocks(facts, c) > 0
      modifies this`trace, this`facts, this`acts
      ensures Steady() && facts == old(facts) && acts == old(acts)
    {
      ok := true;
      var n: nat := *;
      while n > 0 && ok
        invariant Steady() && facts == old(facts) && acts == old(acts)
      {
        ok := Call(c, Plain);
        n := n - 1;
      }
    }

    method UnlockDev()
      requires Sound() && lockedDev
      modifies this`trace, this`facts, this`acts, this`lockedDev
      ensures Sound() && !lockedDev && facts == old(facts).(dev := 1) && acts == old(acts)
    {
      Emit(Unlock(Fs2dev));
      lockedDev := false;
    }

    method UnlockTar2()
      requires Sound() && lockedTar2
      modifies this`trace, this`facts, this`acts, this`lockedTar2
      ensures Sound() && !lockedTar2 && facts == old(facts).(tar2 := 1) && acts == old(acts)
    {
      Emit(Unlock(Tar2files));
      lockedTar2 := false;
    }

    /** Unlock a child if it is still locked, and ask it to end. */
    method EndChild(c: Child, locked: bool)
      requires Tells(analyzer, trace, facts) && ActsOf(trace, acts) && Waits(c) && (locked || Unlocks(facts, c) > 0)
      modifies this`trace, this`facts, this`acts
      ensures Tells(analyzer, trace, facts) == true && ActsOf(trace, acts) == true
      ensures acts == old(acts) + [Request(c, EndAsk)]
      ensures facts == if locked then Update(old(facts), Unlock(c)) else old(facts)
    {
      if locked { Emit(Unlock(c)); }
      Emit(Request(c, EndAsk));
    }

    /** The three that wait for an unlock message. */
    method EndWaiting()
      requires Steady()
      modifies this`trace, this`facts, this`acts
      ensures Tells(analyzer, trace, facts) == true && ActsOf(trace, acts) == true
      ensures acts == old(acts) + [Request(Files2tar, EndAsk), Request(Fs2dev, EndAsk), Request(Tar2files, EndAsk)]
      ensures facts == old(facts).(tar := if lockedTar then old(facts).tar + 1 else old(facts).tar, dev := 1, tar2 := 1)
    {
      EndChild(Files2tar, lockedTar);
      EndChild(Fs2dev, lockedDev);
      EndChild(Tar2files, lockedTar2);
    }

    /** `end_all`: children that are still locked are unlocked, and all are asked to end. */
    method EndAll()
      requires Sound()
      modifies this`trace, this`facts, this`acts, this`state
      ensures state == Ended && Valid() && facts.badFs == old(facts).badFs && acts == old(acts) + ENDS
    {
      Emit(Request(Files2fs, EndAsk));
      EndWaiting();
      assert acts == old(acts) + ENDS;
      state := Ended;
    }

    /** `Children::id`: an empty answer keeps the id there is. */
    method AskId(reply: Option<string>)
      requires Sound()
      modifies this`trace, this`facts, this`acts, this`id
      ensures Sound() && facts == old(facts) && acts == old(acts) && id == NewId(old(id), reply)
    {
      Asks(Others);
      if reply.Some? && reply.value != "" { id := reply; }
    }

    /** One message in a state that waits for the client; `reply` is what a child answers, if it is asked. */
    method Wait(m: Msg, reply: Option<string>)
      requires Valid() && (Idle(state) || state in {WaitEnd, TransferDone})
      modifies this
      ensures Valid() && facts.badFs == old(facts).badFs
      ensures state.CopyFiles? ==> m.CopyStart? && m.to == Some(state.to)
      ensures m.End? ==> state == Ended
      ensures Idle(old(state)) && m.Id? ==> state == old(state) && id == NewId(old(id), reply)
      ensures Goes(old(state), old(id), m, reply).Some? ==>
                state == Goes(old(state), old(id), m, reply).value && id == old(id)
    {
      if m.End? {
        EndAll();
        return;
      }
      if m.Malformed? {
        state := WaitEnd;
        return;
      }
      if state == WaitEnd { return; }
      if state == TransferDone {
        if m.PostCopyCmd? { Asks(Others); }
        state := WaitEnd;
        return;
      }
      WaitIdle(m, reply);
    }

    /** A message other than the end in one of the first three states. */
    method WaitIdle(m: Msg, reply: Option<string>)
      requires Valid() && Idle(state) && !m.End? && !m.Malformed?
      modifies this
      ensures Valid() && facts.badFs == old(facts).badFs
      ensures state.CopyFiles? ==> m.CopyStart? && m.to == Some(state.to)
      ensures m.Id? ==> state == old(state) && id == NewId(old(id), reply)
      ensures Goes(old(state), old(id), m, reply).Some? ==>
                state == Goes(old(state), old(id), m, reply).value && id == old(id)
    {
      if m.Id? {
        AskId(reply);
        return;
      }
      match state {
        case Init => WaitInit(m, reply);
        case DevOpened =>
          if m.Partitions? || m.OpenPartition? {
            Asks(Others);
            if reply.Some? && m.OpenPartition? { state := PartitionOpened; }
          }
        case PartitionOpened => WaitPartition(m);
        case _ =>
      }
    }

    method WaitInit(m: Msg, reply: Option<string>)
      requires Valid() && state == Init
      modifies this
      ensures Valid() && facts.badFs == old(facts).badFs && !state.CopyFiles? && id == old(id)
      ensures m == OpenDevice(true) && reply.Some? ==> state == DevOpened
    {
      match m {
        case Devices => Asks(Others);
        case Wipe(quick) => state := WipeDevice(quick);
        case OpenDevice(given) =>
          if !given {
            state := WaitEnd;
          } else {
            Asks(Others);
            if reply.Some? { state := DevOpened; }
          }
        case ImgDisk(given) =>
          if !given {
            state := WaitEnd;
          } else {
            Asks(Others);
            if reply.Some? { state := ImageDisk; }
          }
        case _ =>
      }
    }

    /** A copy starts only with an id. */
    method WaitPartition(m: Msg)
      requires Valid() && state == PartitionOpened
      modifies this
      ensures Valid() && facts.badFs == old(facts).badFs && id == old(id)
      ensures state.CopyFiles? <==> old(id).Some? && m.CopyStart? && m.to.Some?
      ensures state.CopyFiles? ==> state == CopyFiles(m.selected, m.to.value)
    {
      if m.GetAttr? || m.ReadDir? {
        Asks(Others);
      } else if m.CopyStart? && id.Some? {
        if m.to.None? {
          state := WaitEnd;
        } else {
          Emit(CopyBegun(id.value));
          state := CopyFiles(m.selected, m.to.value);
        }
      }
    }

    // ---- copying ----

    /** `filter_files`: as many answers as paths, and the paths answered with PathOk, in order. */
    method Filter(paths: seq<Path>, reply: Option<seq<bool>>) returns (ok: bool, kept: seq<Path>, dropped: seq<Path>)
      requires Sound()
      modifies this`trace, this`facts, this`acts
      ensures Sound() && facts == old(facts).(pathsOk := old(facts).pathsOk + ToSet(kept)) && acts == old(acts)
      ensures ok <==> Answers(reply, paths)
      ensures ok ==> kept == Marked(paths, reply.value, true) && dropped == Marked(paths, reply.value, false)
      ensures !ok ==> kept == []
    {
      kept, dropped := [], [];
      Asks(Others);
      ok := Answers(reply, paths);
      if ok {
        kept, dropped := Parted(paths, reply.value);
      }
      HasOnlyMore(tar, facts.pathsOk, ToSet(kept));
      Emit(PathsOk(ToSet(kept)));
    }

    /** A framed request whose answer is seen elsewhere. */
    ghost method Asks(c: Child)
      requires Steady() && Unlocks(facts, c) > 0
      modifies this`trace, this`facts, this`acts
      ensures Steady() && facts == old(facts) && acts == old(acts)
    {
      Emit(Request(c, Plain));
    }

    /** The attributes of a file from the source, and its header to files2tar. */
    method StartFile(path: string, maxSize: Option<nat>)
      returns (ok: bool, size: nat, ghost ftype: FileType, ghost mtime: int)
      requires Steady() && facts.tar == 1 && tar.Valid()
      modifies this`trace, this`facts, this`acts, tar
      ensures Steady() && facts == old(facts) && acts == old(acts)
      ensures tar.Valid() && tar.entries == old(tar.entries) && tar.closed == old(tar.closed)
      ensures ok ==> old(tar.state) == Waiting && tar.state == Writing(size, 0)
                     && tar.current == Entry(tar.HeaderOf(path, ftype, size, mtime), [])
                     && ftype in {Regular, Directory} && (ftype == Directory ==> size == 0)
                     && (maxSize.Some? ==> size <= maxSize.value)
      ensures !ok && tar.state == Waiting ==> tar.out == old(tar.out)
      ensures old(tar.state) != Waiting ==> tar.state != Waiting
    {
      ok, size, ftype, mtime := false, 0, Other, 0;
      Asks(Others);
      var a := SourceAttrs(path);
      if a.None? { return; }
      if maxSize.Some? && a.value.size > maxSize.value { return; }
      size := if a.value.ftype == Some(Directory) then 0 else a.value.size;
      mtime := a.value.mtime;
      Asks(Files2tar);
      ok := tar.NewFile(path, a.value.ftype, size, a.value.mtime);
      if ok { ftype := a.value.ftype.value; }
    }

    /** One chunk, read from the source and sent to files2tar. */
    method SendChunk(path: string, offset: nat, size: nat) returns (ok: bool, ghost data: seq<byte>)
      requires Steady() && facts.tar == 1 && tar.Valid() && tar.state.Writing?
      modifies this`trace, this`facts, this`acts, tar
      ensures Steady() && facts == old(facts) && acts == old(acts)
      ensures tar.Valid() && tar.entries == old(tar.entries) && tar.closed == old(tar.closed)
      ensures ok ==> tar.state == Writing(old(tar.state).total, old(tar.state).written + |data|)
                     && tar.current == Entry(old(tar.current).header, old(tar.current).data + data)
      ensures ok && |data| == size ==> offset + size <= |source(path)| && data == source(path)[offset..offset + size]
      ensures tar.state != Waiting
    {
      data, ok := [], false;
      Asks(Others);
      var read := ReadSource(source, path, offset, size);
      if read.None? { return; }
      data := read.value;
      Asks(Files2tar);
      ok := tar.WriteFile(read.value);
    }

    /** The file in chunks of at most 10 MiB. */
    method SendChunks(path: string, size: nat) returns (ok: bool, ghost chunks: seq<byte>, ghost full: bool)
      requires Steady() && facts.tar == 1 && tar.Valid() && tar.state == Writing(size, 0)
      modifies this`trace, this`facts, this`acts, tar
      ensures Steady() && facts == old(facts) && acts == old(acts)
      ensures tar.Valid() && tar.entries == old(tar.entries) && tar.closed == old(tar.closed)
      ensures ok ==> tar.state == Writing(size, |chunks|) && tar.current == Entry(old(tar.current).header, chunks)
      ensures tar.state != Waiting && (ok && full ==> |chunks| == size && chunks <= source(path))
    {
      chunks, full, ok := [], true, false;
      var offset: nat, left := 0, size;
      while left > 0
        invariant Steady() && facts == old(facts) && acts == old(acts) && tar.Valid() && tar.entries == old(tar.entries)
        invariant tar.closed == old(tar.closed) && tar.current == Entry(old(tar.current).header, chunks)
        invariant tar.state == Writing(size, |chunks|) && left <= size
        invariant full ==> |chunks| == offset && offset + left == size && chunks <= source(path)
      {
        var todo: nat := if left < READ_FILE_MAX_SIZE then left else READ_FILE_MAX_SIZE;
        var taken;
        ghost var data;
        taken, data := SendChunk(path, offset, todo);
        if !taken { return; }
        full := full && |data| == todo;
        if full { PrefixNext(source(path), chunks, data); }
        chunks := chunks + data;
        offset, left := offset + todo, left - todo;
        var told: bool := *;  // the client is told about the progress; that may fail too
        if !told { return; }
      }
      ok := true;
    }

    /**
     `file_to_tar`: one file, in chunks, each read from the source and then sent to files2tar. When it succeeds the
     archive has one more entry, of the chunks in order; if every chunk was as long as asked for it is exact, and the
     chunks are the beginning of the file. When it fails the archive is as it was, or can no longer be closed.
     */
    method FileToTar(path: string, maxSize: Option<nat>) returns (ok: bool, ghost chunks: seq<byte>, ghost full: bool)
      requires Steady() && facts.tar == 1 && tar.Valid() && !tar.closed
      modifies this`trace, this`facts, this`acts, tar
      ensures Steady() && facts == old(facts) && acts == old(acts) && tar.Valid() && !tar.closed
      ensures ok ==> tar.state == Waiting && Added(tar, old(tar.entries), tar.entries, path, chunks, full) == true
      ensures ok && full ==> chunks <= source(path)
      ensures ok && maxSize.Some? ==> tar.entries[|old(tar.entries)|].header.size <= maxSize.value
      ensures !ok && tar.state == Waiting ==> tar.entries == old(tar.entries) && tar.out == old(tar.out)
      ensures old(tar.state) != Waiting ==> tar.state != Waiting
    {
      chunks, full, ok := [], true, false;
      var started, left;
      ghost var ftype, mtime;
      started, left, ftype, mtime := StartFile(path, maxSize);
      if !started { return; }
      var sent;
      sent, chunks, full := SendChunks(path, left);
      if !sent { return; }
      Asks(Files2tar);
      ok := tar.EndFile();
      if ok { AddedIs(tar, old(tar.entries), path, ftype, left, mtime, chunks, full); }
    }

    /** All files; `marks` tells which of them the archive has, and the others are the errors. */
    method TarFiles(names: seq<string>, maxSize: Option<nat>)
      returns (errors: seq<string>, ghost marks: seq<bool>, ghost contents: seq<seq<byte>>, ghost full: bool)
      requires Steady() && facts.tar == 1 && tar.Valid() && tar.state == Waiting && !tar.closed
      modifies this`trace, this`facts, this`acts, tar
      ensures Steady() && facts == old(facts) && acts == old(acts) && tar.Valid() && !tar.closed
      ensures |marks| == |names| && errors == Marked(names, marks, false)
      ensures tar.state == Waiting ==>
                Progress(tar, old(tar.entries), tar.entries, Marked(names, marks, true), contents, full)
      ensures full ==> FromSource(source, Marked(names, marks, true), contents)
    {
      errors, marks, contents, full := [], [], [], true;
      ghost var first := tar.entries;
      ghost var done: seq<string> := [];
      assert first[..|first|] == first;
      var i := 0;
      while i < |names|
        invariant 0 <= i <= |names| && |marks| == i && tar.Valid() && !tar.closed
        invariant Steady() && facts == old(facts) && acts == old(acts)
        invariant errors == Marked(names[..i], marks, false) && done == Marked(names[..i], marks, true)
        invariant tar.state == Waiting ==> Progress(tar, first, tar.entries, done, contents, full) == true
        invariant full ==> FromSource(source, done, contents)
      {
        ghost var es := tar.entries;
        ghost var chunks, complete;
        var copied;
        copied, chunks, complete := FileToTar(names[i], maxSize);
        if !copied { errors := errors + [names[i]]; }
        MarkedNext(names, marks, i, copied);
        if copied {
          ProgressSnoc(tar, first, es, tar.entries, done, contents, full, names[i], chunks, complete);
          done, contents, full := done + [names[i]], contents + [chunks], full && complete;
        }
        marks, i := marks + [copied], i + 1;
      }
      assert names[..i] == names;
    }

    /**
     `tar_src_files`: all files, then Close. If Close succeeds, the archive holds exactly the files that
     are not among the errors, in order, each with what was read of it: no file was left half-written.
     */
    method TarSource(names: seq<string>, maxSize: Option<nat>, infos: seq<byte>, mtime: int)
      returns (ok: bool, errors: seq<string>, ghost marks: seq<bool>, ghost contents: seq<seq<byte>>, ghost full: bool)
      requires Steady() && facts.tar == 1 && tar.Valid() && tar.state == Waiting
      modifies this`trace, this`facts, this`acts, tar
      ensures Steady() && facts == old(facts) && acts == old(acts) && tar.Valid() && tar.closed == ok
      ensures |marks| == |names| && errors == Marked(names, marks, false)
      ensures ok ==> Archived(tar, old(tar.entries), Marked(names, marks, true), contents, full)
      ensures full ==> FromSource(source, Marked(names, marks, true), contents)
      ensures ok && tar.prefix.Some? ==>
                tar.entries[|tar.entries| - 1] == Entry(Header("infos.json", Regular, |infos|, mtime), infos)
    {
      errors, marks, contents, full := TarFiles(names, maxSize);
      ghost var es := tar.entries;
      Asks(Files2tar);
      ok := tar.Close(infos, mtime);
      assert ok ==> tar.entries[..|es|] == es;
    }

    /** What was read of the files is what tar2files serves, under each name the last file of that name. */
    method TarThenServe(names: seq<string>, maxSize: Option<nat>, infos: seq<byte>, mtime: int)
      returns (ok: bool, errors: seq<string>, ghost marks: seq<bool>, ghost contents: seq<seq<byte>>, ghost full: bool)
      requires Steady() && facts.tar == 1 && tar.Valid() && tar.state == Waiting
      requires forall i | 0 <= i < |tar.entries| :: Exact(tar.entries[i])
      modifies this`trace, this`facts, this`acts, tar
      ensures Steady() && facts == old(facts) && acts == old(acts) && tar.Valid() && tar.closed == ok
      ensures |marks| == |names| && errors == Marked(names, marks, false)
      ensures ok ==> |contents| == |Marked(names, marks, true)|
      ensures ok && full ==>
                var done := Marked(names, marks, true);
                forall k: nat | LastDone(tar, done, k) ::
                  contents[k] <= source(done[k]) && Served(tar, done[k], contents[k])
    {
      ghost var first := tar.entries;
      ok, errors, marks, contents, full := TarSource(names, maxSize, infos, mtime);
      ghost var done := Marked(names, marks, true);
      if ok && full {
        forall k: nat, path | LastDone(tar, done, k) && TrimSlashes(path) == tar.NameOf(done[k])
          ensures ReadAll(tar.out, Index(tar.codec, tar.out, 0), path, 0, |contents[k]|) == Some(contents[k])
        {
          SourceServed(tar, first, done, contents, full, k, path);
        }
      }
    }

    /** The archive of paths that passed the filter has only such. */
    method MakeArchive(paths: seq<Path>, maxSize: Option<nat>) returns (ok: bool, errors: seq<string>, ghost r: Reading)
      requires Sound() && facts.tar == 1 && tar.Valid() && tar.state == Waiting && |tar.entries| == Extra(tar)
      requires forall p | p in paths :: p in facts.pathsOk
      modifies this`trace, this`facts, this`acts, tar
      ensures Sound() && facts == old(facts) && acts == old(acts) && tar.Valid() && tar.closed == ok
      ensures ok ==> Made(tar, source, paths, r) == true
    {
      var infos: seq<byte> := *;
      var mtime: int := *;
      ghost var first := tar.entries;
      ghost var marks, contents, full;
      ok, errors, marks, contents, full := TarSource(Spelled(paths), maxSize, infos, mtime);
      r := Reading(first, marks, contents, full);
      if ok {
        MadeIs(tar, source, paths, r);
        DoneOnly(tar, first, tar.entries[..|tar.entries| - Extra(tar)], paths, marks, contents, full, facts.pathsOk);
      }
    }

    /** What goes wrong with a copy request: its type is unknown, and its device answers and is large enough. */
    predicate MeetsBadType(to: Destination, total: nat, devSize: Option<nat>) {
      to == Usb(None) && devSize.Some? && total <= devSize.value * 98 / 100
    }

    /**
     The unlocking of `CopyFiles`, with the size that fs2dev answers. A USB destination without a known file system
     type is noticed only after files2tar was unlocked, and before that is recorded.
     */
    method UnlockForCopy(to: Destination, total: nat, devSize: Option<nat>) returns (ok: bool)
      requires Sound() && Untouched() && facts.copying
      modifies this`trace, this`facts, this`acts, this`lockedDev, this`lockedTar
      ensures Sound()
      ensures ok ==> !lockedTar && !facts.badFs && lockedDev == !to.Usb? && lockedTar2
                     && facts == old(facts).(tar := 1, dev := if to.Usb? then 1 else 0)
      ensures acts == old(acts) && (facts.badFs <==> MeetsBadType(to, total, devSize))
    {
      ok := true;
      if to.Usb? {
        UnlockDev();
        Emit(Request(Fs2dev, Plain));
        if devSize.None? { return false; }
        if total > devSize.value * 98 / 100 { return false; }
        Emit(Unlock(Files2tar));
        if to.fsType.None? {
          Emit(BadFsType);
          return false;
        }
      } else {
        Emit(Unlock(Files2tar));
      }
      lockedTar := false;
    }

    /** `CopyFilesState`: expand, filter, unlock, make the archive. */
    method RunCopy(fileReply: Option<seq<bool>>, dirReply: Option<seq<bool>>, devSize: Option<nat>)
      returns (ok: bool, ghost files: seq<Path>, ghost dirs: seq<Path>, ghost r: Reading)
      requires Valid() && state.CopyFiles?
      modifies this, tar
      ensures Valid() && (state == WaitEnd || state.UploadOrCmd? || state.WriteFiles?) && acts == old(acts)
      ensures state.WriteFiles? ==> old(state).to.Usb?
      ensures state.UploadOrCmd? ==> !old(state).to.Usb? && state.net == old(state).to.Net?
      ensures state.WriteFiles? || state.UploadOrCmd? ==>
                && ok && Answers(fileReply, files) && Answers(dirReply, dirs)
                && var f, d := Marked(files, fileReply.value, true), Marked(dirs, dirReply.value, true);
                   Made(tar, source, d + f, r) == true && (state.WriteFiles? ==> state == WriteFiles(f, d))
      ensures Listed(device, old(state).selected, ok, files, dirs)
      ensures facts.badFs <==>
                && ok && Answers(fileReply, files) && Answers(dirReply, dirs)
                && (Marked(files, fileReply.value, true) != [] || Marked(dirs, dirReply.value, true) != [])
                && MeetsBadType(old(state).to, SizeSum(device, files), devSize)
      ensures facts.badFs ==> state == WaitEnd
    {
      var selected, to := state.selected, state.to;
      state := WaitEnd;
      r := Reading([], [], [], false);
      var allFiles, allDirs, errors, total;
      ok, allFiles, allDirs, errors, total := Expand(device, selected);
      files, dirs := allFiles, allDirs;
      Emit(Expanded(ToSet(allFiles)));
      if !ok { return; }
      var passed, kept, keptDirs, dropped, more;
      passed, kept, dropped := Filter(allFiles, fileReply);
      if !passed { return; }
      passed, keptDirs, more := Filter(allDirs, dirReply);
      if !passed { return; }
      if kept == [] && keptDirs == [] { return; }
      KeptIn(allFiles, fileReply.value);
      KeptIn(allDirs, dirReply.value);
      r := Archive(to, total, kept, keptDirs, devSize);
    }

    /** The second half: unlock, make the archive, and go on by destination. */
    method Archive(to: Destination, total: nat, files: seq<Path>, dirs: seq<Path>, devSize: Option<nat>)
      returns (ghost r: Reading)
      requires Sound() && Untouched() && facts.copying && state == WaitEnd
      requires forall p | p in files :: p in facts.expanded && p in facts.pathsOk
      requires forall p | p in dirs :: p in facts.pathsOk
      modifies this, tar
      ensures Valid() && (state == WaitEnd || state.UploadOrCmd? || state.WriteFiles?) && acts == old(acts)
      ensures state.WriteFiles? ==>
                to.Usb? && Made(tar, source, dirs + files, r) == true && state == WriteFiles(files, dirs)
      ensures state.UploadOrCmd? ==> !to.Usb? && Made(tar, source, dirs + files, r) == true && state.net == to.Net?
      ensures facts.badFs <==> MeetsBadType(to, total, devSize)
      ensures facts.badFs ==> state == WaitEnd
    {
      r := Reading([], [], [], false);
      var ok := UnlockForCopy(to, total, devSize);
      if !ok { return; }
      var errors;
      ok, errors, r := MakeArchive(dirs + files, if to == Usb(Some(Fat)) then Some(0xFFFF_FFFF) else None);
      if !ok { return; }
      UnlockTar2();
      state := if to.Usb? then WriteFiles(files, dirs) else UploadOrCmd(to.Net?);
    }

    /** `analyze_files`: the files on the clean list stay, in order; without an analyzer all files stay. */
    method Analyze(files: seq<Path>) returns (ok: bool, kept: seq<Path>)
      requires Sound() && forall p | p in files :: p in facts.expanded && p in facts.pathsOk
      modifies this`trace, this`facts, this`acts
      ensures Sound() && (ok ==> (analyzer ==> facts.clean.Some?) && forall p | p in kept :: MaySend(facts, p))
      ensures ok ==> kept == if analyzer then Clean(files, facts.clean.value) else files
      ensures facts == old(facts).(clean := facts.clean) && acts == old(acts)
    {
      ok, kept := true, files;
      if analyzer {
        ok := Call(Analyzer, Plain);
        if !ok { return; }
        var clean: set<Path> := *;
        Emit(Analyzed(clean));
        kept := Retain(files, clean);
        CleanIn(files, clean);
      }
    }

    /** tar2files answers with what it has, or with an error. */
    method AskSize(path: Path) returns (size: Option<nat>)
      requires Steady() && facts.tar2 == 1
      modifies this`trace, this`facts, this`acts
      ensures Steady() && facts == old(facts) && acts == old(acts)
      ensures size.Some? ==> size == SizeIn(Index(tar.codec, tar.out, 0), Spell(path))
    {
      var ok := Call(Tar2files, Plain);
      size := if ok then SizeIn(Index(tar.codec, tar.out, 0), Spell(path)) else None;
    }

    /** One chunk, read from tar2files and written by files2fs. */
    method SendPart(path: Path, offset: nat, size: nat) returns (ok: bool, ghost data: seq<byte>, ghost es: seq<Event>)
      requires Steady() && facts.tar2 == 1 && MaySend(facts, path)
      modifies this`trace, this`facts, this`acts
      ensures Steady() && facts == old(facts) && acts == old(acts) + es && About(es, path)
      ensures ok ==> ReadFile(tar.out, Index(tar.codec, tar.out, 0), Spell(path), offset, size) == Some(data)
      ensures ok ==> es == [Request(Files2fs, WriteFile(path, offset, data))]
    {
      data, es := [], [];
      ok := Call(Tar2files, Plain);
      if !ok { return; }
      var read := ReadFile(tar.out, Index(tar.codec, tar.out, 0), Spell(path), offset, size);
      if read.None? { return false, [], []; }
      data, es := read.value, [Request(Files2fs, WriteFile(path, offset, read.value))];
      ok := Call(Files2fs, WriteFile(path, offset, read.value));
    }

    /** The data of a file in chunks of at most 10 MiB, each at its place. */
    method SendParts(path: Path, size: nat) returns (ok: bool, ghost data: seq<byte>, ghost es: seq<Event>)
      requires Steady() && facts.tar2 == 1 && MaySend(facts, path)
      modifies this`trace, this`facts, this`acts
      ensures Steady() && facts == old(facts) && acts == old(acts) + es && About(es, path)
      ensures ok ==> |data| == size && InOrder(es, path, data)
      ensures ok ==> ReadAll(tar.out, Index(tar.codec, tar.out, 0), Spell(path), 0, size) == Some(data)
    {
      ok, data, es := true, [], [];
      ghost var index := Index(tar.codec, tar.out, 0);
      SentStart(tar.out, index, path, size);
      var offset: nat, left: nat := 0, size;
      while left > 0 && ok
        invariant Steady() && facts == old(facts) && acts == old(acts) + es
        invariant SentSoFar(tar.out, index, path, es, data, offset, left, size, ok)
        decreases left, ok
      {
        var todo: nat := if left < READ_FILE_MAX_SIZE then left else READ_FILE_MAX_SIZE;
        ghost var part, more;
        ok, part, more := SendPart(path, offset, todo);
        SentNext(tar.out, index, path, es, data, offset, left, size, ok, part, more);
        es, data := es + more, data + part;
        offset, left := offset + todo, left - todo;
        if ok {
          ok := *;  // the client is told about the progress; that may fail too
          if !ok { SentUntil(tar.out, index, path, es, data, offset, left, size); }
        }
      }
      SentAll(tar.out, index, path, es, data, offset, left, size, ok);
    }

    /** `write_file`: the start of a file, its data, its end, up to an error. */
    method SendWhole(path: Path, size: nat)
      returns (ok: bool, ghost data: seq<byte>, ghost parts: seq<Event>, ghost es: seq<Event>)
      requires Steady() && facts.tar2 == 1 && MaySend(facts, path)
      modifies this`trace, this`facts, this`acts
      ensures Steady() && facts == old(facts) && acts == old(acts) + es && About(parts, path)
      ensures if ok then es == Whole(path, parts) else es <= Whole(path, parts)
      ensures ok ==> |data| == size && InOrder(parts, path, data)
      ensures ok ==> ReadAll(tar.out, Index(tar.codec, tar.out, 0), Spell(path), 0, size) == Some(data)
    {
      data, parts := [], [];
      ok := Call(Files2fs, NewFile(path, true));
      es := [Request(Files2fs, NewFile(path, true))];
      if ok {
        ok, data, parts := SendParts(path, size);
        Associates(old(acts), es, parts);
        es := es + parts;
        if ok {
          ok := Call(Files2fs, EndFile(path));
          Associates(old(acts), es, [Request(Files2fs, EndFile(path))]);
          es := es + [Request(Files2fs, EndFile(path))];
        }
      }
      WholeStarts(path, parts);
    }

    /** A whole file, as tar2files has it; or an error, after requests about that file alone. */
    method SendFile(path: Path) returns (ok: bool, ghost data: seq<byte>, ghost es: seq<Event>)
      requires Steady() && facts.tar2 == 1 && MaySend(facts, path)
      modifies this`trace, this`facts, this`acts
      ensures Steady() && facts == old(facts) && acts == old(acts) + es
      ensures PartOk(Index(tar.codec, tar.out, 0), tar.out, es, path, ok, data) == true
    {
      ghost var parts := [];
      ok, data, es := false, [], [];
      var size := AskSize(path);
      if size.Some? { ok, data, parts, es := SendWhole(path, size.value); }
      PartIs(Index(tar.codec, tar.out, 0), tar.out, path, parts, data, es, ok);
    }

    /** The directories, in order. */
    method SendDirs(dirs: seq<Path>) returns (ok: bool)
      requires Steady() && facts.tar2 == 1
      modifies this`trace, this`facts, this`acts
      ensures Steady() && facts == old(facts)
      ensures ok ==> acts == old(acts) + DirActs(dirs)
    {
      ok := true;
      var i := 0;
      while i < |dirs|
        invariant 0 <= i <= |dirs| && Steady() && facts == old(facts) && acts == old(acts) + DirActs(dirs[..i])
      {
        ok := Call(Tar2files, Plain);
        if ok { ok := Call(Files2fs, NewFile(dirs[i], false)); }
        if !ok { return; }
        assert DirActs(dirs[..i + 1]) == DirActs(dirs[..i]) + [Request(Files2fs, NewFile(dirs[i], false))];
        i := i + 1;
      }
      assert dirs[..i] == dirs;
    }

    /** The directories, then the files: each of them whole, or among the errors. */
    method SendAll(dirs: seq<Path>, files: seq<Path>) returns (ok: bool, errors: seq<Path>, ghost s: Sending)
      requires Steady() && facts.tar2 == 1 && forall p | p in files :: MaySend(facts, p)
      modifies this`trace, this`facts, this`acts
      ensures Steady() && facts == old(facts)
      ensures ok ==> acts == old(acts) + DirActs(dirs) + Joined(s.parts)
      ensures ok ==>
                SendingOk(Index(tar.codec, tar.out, 0), tar.out, files, s) && errors == Marked(files, s.marks, false)
    {
      errors, s := [], Sending([], [], []);
      SendingNone(Index(tar.codec, tar.out, 0), tar.out);
      ok := SendDirs(dirs);
      if !ok { return; }
      ghost var base := acts;
      ghost var index := Index(tar.codec, tar.out, 0);
      var i := 0;
      while i < |files|
        invariant 0 <= i <= |files| && Steady() && facts == old(facts) && acts == base + Joined(s.parts)
        invariant SendingOk(index, tar.out, files[..i], s) && errors == Marked(files[..i], s.marks, false)
      {
        var sent;
        ghost var data, es;
        sent, data, es := SendFile(files[i]);
        if !sent { errors := errors + [files[i]]; }
        MarkedNext(files, s.marks, i, sent);
        assert files[..i + 1] == files[..i] + [files[i]];
        SendingSnoc(index, tar.out, files[..i], s, files[i], sent, es, data);
        s := Sending(s.marks + [sent], s.parts + [es], s.datas + [data]);
        i := i + 1;
      }
      assert files[..i] == files;
    }

    /** `forward_bitvec`: the chunks that files2fs answers with, up to one that is marked as the last. */
    method ForwardBits(chunks: seq<seq<byte>>) returns (ok: bool)
      requires Steady() && facts.dev == 1
      modifies this`trace, this`facts, this`acts
      ensures Steady() && facts == old(facts)
      ensures ok ==> chunks != [] && acts == old(acts) + Loads(chunks, |chunks|)
    {
      ok := false;
      var i := 0;
      while i < |chunks|
        invariant 0 <= i <= |chunks| && Steady() && facts == old(facts) && acts == old(acts) + Loads(chunks, i)
        invariant ok <==> i > 0
      {
        ok := Call(Files2fs, Plain);
        if ok { ok := Call(Fs2dev, LoadBits(chunks[i], i == |chunks| - 1)); }
        if !ok { return; }
        LoadsNext(acts, old(acts), chunks, i);
        i := i + 1;
      }
    }

    /** Close the file system, forward the bit vector, and start the copy to the device. */
    method WriteDevice() returns (ok: bool, ghost chunks: seq<seq<byte>>)
      requires Steady() && facts.dev == 1 && (facts.copying && analyzer ==> facts.clean.Some?)
      modifies this`trace, this`facts, this`acts
      ensures Steady() && facts == old(facts)
      ensures ok ==> acts == old(acts) + Loads(chunks, |chunks|) + [Request(Fs2dev, StartCopy)]
    {
      chunks := [];
      ok := Call(Files2fs, Plain);
      if !ok { return; }
      var bits: seq<seq<byte>> := *;
      chunks := bits;
      ok := ForwardBits(bits);
      if ok { ok := Call(Fs2dev, StartCopy); }
    }

    /** Make the file system, send everything, and write it to the device. */
    method WriteAll(dirs: seq<Path>, files: seq<Path>)
      returns (ok: bool, errors: seq<Path>, ghost s: Sending, ghost chunks: seq<seq<byte>>)
      requires Steady() && facts.tar2 == 1 && facts.dev == 1 && (analyzer ==> facts.clean.Some?)
      requires forall p | p in files :: MaySend(facts, p)
      modifies this`trace, this`facts, this`acts
      ensures Steady() && facts == old(facts)
      ensures ok ==>
                Wrote(Index(tar.codec, tar.out, 0), tar.out, dirs, files, errors, s, chunks, old(acts), acts) == true
    {
      errors, s, chunks := [], Sending([], [], []), [];
      ok := Call(Fs2dev, Plain);
      if ok { ok := Call(Files2fs, Plain); }
      if ok { ok, errors, s := SendAll(dirs, files); }
      ghost var mid := acts;
      if ok { ok, chunks := WriteDevice(); }
      if ok { WroteIs(Index(tar.codec, tar.out, 0), tar.out, dirs, files, errors, s, chunks, old(acts), mid, acts); }
    }

    /**
     `WriteFilesState`: analyse first, then write. When the transfer is done, files2fs got every directory and then
     every clean file, as tar2files has it, that is not among the errors; and the copy to the device was started last.
     */
    method RunWrite() returns (errors: seq<Path>, ghost kept: seq<Path>, ghost s: Sending, ghost chunks: seq<seq<byte>>)
      requires Valid() && state.WriteFiles?
      modifies this
      ensures Valid() && state in {WaitEnd, TransferDone} && facts.badFs == old(facts).badFs
      ensures state == TransferDone ==>
                && kept != [] && (analyzer ==> facts.clean.Some?)
                && kept == if analyzer then Clean(old(state).files, facts.clean.value) else old(state).files
      ensures state == TransferDone ==>
                Wrote(Index(tar.codec, tar.out, 0), tar.out, old(state).dirs, kept, errors, s, chunks, old(acts), acts)
    {
      var files, dirs := state.files, state.dirs;
      state := WaitEnd;
      errors, s, chunks := [], Sending([], [], []), [];
      var ok;
      ok, files := Analyze(files);
      kept := files;
      if !ok || files == [] { return; }
      ok, errors, s, chunks := WriteAll(dirs, files);
      if ok { state := TransferDone; }
    }

    /** `UploadOrCmdState`: the archive is uploaded or the command run; fs2dev is unlocked only so that it can end. */
    method RunUpload()
      requires Valid() && state.UploadOrCmd?
      modifies this
      ensures Valid() && state in {WaitEnd, TransferDone} && facts.badFs == old(facts).badFs
      ensures acts == old(acts) + [Request(Others, if old(state).net then UploadAsk else ExecAsk)]
      ensures state == TransferDone ==> !lockedDev
    {
      var net := state.net;
      state := WaitEnd;
      var ok := Call(Others, if net then UploadAsk else ExecAsk);
      if !ok { return; }
      UnlockDev();
      state := TransferDone;
    }

    /** Write over all of the device, unless a quick wipe will do. */
    method Erase(quick: bool) returns (ok: bool)
      requires Steady() && facts.dev == 1
      modifies this`trace, this`facts, this`acts
      ensures Steady() && facts == old(facts)
      ensures acts == old(acts) + if quick then [] else [Request(Fs2dev, WipeAsk)]
    {
      ok := true;
      if !quick { ok := Call(Fs2dev, WipeAsk); }
    }

    /** `WipeState`: erase, then write a new file system. */
    method RunWipe() returns (ok: bool, ghost chunks: seq<seq<byte>>)
      requires Valid() && state.WipeDevice?
      modifies this
      ensures Valid() && state == WaitEnd && facts.badFs == old(facts).badFs && !lockedDev
      ensures ok ==> acts == old(acts) + (if old(state).quick then [] else [Request(Fs2dev, WipeAsk)])
                             + Loads(chunks, |chunks|) + [Request(Fs2dev, StartCopy)]
    {
      var quick := state.quick;
      state := WaitEnd;
      chunks := [];
      UnlockDev();
      ok := Erase(quick);
      if ok { ok := Call(Fs2dev, Plain); }
      if ok { ok := Call(Files2fs, Plain); }
      if ok { ok, chunks := WriteDevice(); }
    }

    method RunImage()
      requires Valid() && state == ImageDisk
      modifies this
      ensures Valid() && state == WaitEnd && facts.badFs == old(facts).badFs
    {
      state := WaitEnd;
      var ok := Call(Files2fs, Plain);
      if ok { ok := Calls(Others); }
      if ok { ok := Calls(Files2fs); }
    }

    /** A state that does not wait for the client. */
    method RunBusy()
      requires Valid() && state != Ended && !Idle(state) && state !in {WaitEnd, TransferDone}
      modifies this, tar
      ensures Valid() && Rank(state) < Rank(old(state))
      ensures facts.badFs ==> old(facts).badFs || (old(state).CopyFiles? && old(state).to == Usb(None))
    {
      match state {
        case CopyFiles(_, _) =>
          var fileReply: Option<seq<bool>> := *;
          var dirReply: Option<seq<bool>> := *;
          var devSize: Option<nat> := *;
          var ok;
          ghost var files, dirs, r;
          ok, files, dirs, r := RunCopy(fileReply, dirReply, devSize);
        case WriteFiles(_, _) =>
          var errors;
          ghost var kept, s, chunks;
          errors, kept, s, chunks := RunWrite();
        case UploadOrCmd(_) => RunUpload();
        case WipeDevice(_) =>
          var wiped;
          ghost var chunks;
          wiped, chunks := RunWipe();
        case ImageDisk => RunImage();
        case _ =>
      }
    }

    /**
     The main loop, on any messages from the client and any answers of the children. It ends when the
     client asks for it; without an end the client is gone.
     */
    method MainLoop(inbox: seq<Msg>) returns (ended: bool)
      requires Valid() && state == Init
      modifies this, tar
      ensures Valid() && (ended <==> state == Ended)
      ensures facts.badFs ==> exists i | 0 <= i < |inbox| :: inbox[i].CopyStart? && inbox[i].to == Some(Usb(None))
    {
      var i := 0;
      while state != Ended
        invariant 0 <= i <= |inbox| && Valid()
        invariant state.CopyFiles? ==> i > 0 && inbox[i - 1].CopyStart? && inbox[i - 1].to == Some(state.to)
        invariant facts.badFs ==> exists k | 0 <= k < i :: inbox[k].CopyStart? && inbox[k].to == Some(Usb(None))
        decreases |inbox| - i, Rank(state)
      {
        if Idle(state) || state in {WaitEnd, TransferDone} {
          if i == |inbox| { return false; }
          var reply: Option<string> := *;
          Wait(inbox[i], reply);
          i := i + 1;
        } else {
          RunBusy();
        }
      }
      ended := true;
    }
  }

  /** How far a state is from waiting for the client. */
  function Rank(s: State): nat {
    match s
    case CopyFiles(_, _) => 2
    case WriteFiles(_, _) => 1
    case UploadOrCmd(_) => 1
    case WipeDevice(_) => 1
    case ImageDisk => 1
    case _ => 0
  }

  /**
   A run that reached its end: each waiting child was unlocked before it got anything else, and exactly
   once, unless the run met a bad file system type, when files2tar was unlocked twice. Last, they were asked to end.
   */
  lemma EndedRun(u: Usbsas)
    requires u.Valid() && u.state == Ended
    ensures forall c | Waits(c) :: UnlockedFirst(u.trace, c)
    ensures (forall c | Waits(c) :: CountUnlocks(u.trace, c) == 1) <==> BadFsType !in u.trace
    ensures BadFsType in u.trace ==> CountUnlocks(u.trace, Files2tar) == 2
    ensures EndsAll(Requests(u.trace))
  {
    assert OpenFacts();
    BadFsIff(u.analyzer, u.trace);
    forall c | Waits(c)
      ensures UnlockedFirst(u.trace, c) && CountUnlocks(u.trace, c) == Unlocks(u.facts, c)
    {
      NotEarly(u.analyzer, u.trace, c);
      UnlocksCounted(u.analyzer, u.trace, c);
    }
    assert Waits(Files2tar);
  }

  /**
   A whole run, from the messages of the client: if no copy to a USB device comes without a file system type, every
   waiting child is unlocked exactly once, and before anything else.
   */
  method Session(analyzer: bool, device: Device, source: string -> seq<byte>, codec: Codec, prefix: Option<string>,
                 inbox: seq<Msg>)
    returns (u: Usbsas, ended: bool)
    requires CodecOk(codec) && (prefix.Some? ==> codec.fits(Header(prefix.value, FileType.Directory, 0, 0)))
    ensures fresh(u) && u.Valid() && (ended <==> u.state == Ended)
    ensures ended ==> forall c | Waits(c) :: UnlockedFirst(u.trace, c)
    ensures ended && (forall i | 0 <= i < |inbox| && inbox[i].CopyStart? :: inbox[i].to != Some(Usb(None))) ==>
              forall c | Waits(c) :: CountUnlocks(u.trace, c) == 1
  {
    var tar := new Archiver(codec, prefix);
    u := new Usbsas(analyzer, device, source, tar);
    ended := u.MainLoop(inbox);
    if ended {
      EndedRun(u);
      BadFsTold(u);
    }
  }

  lemma BadFsTold(u: Usbsas)
    requires u.Valid() && u.state == Ended
    ensures u.facts.badFs <==> BadFsType in u.trace
  {
    assert OpenFacts();
    BadFsIff(u.analyzer, u.trace);
  }

  /**
   The other case, from the first message on. The client asks for an id, opens a device and a partition, asks for a copy
   of a file to a USB device without a file system type, and for the end; the children answer, the filter lets the file
   through, and the device is large enough. Then files2tar is unlocked twice.
   */
  method UnlockedTwice(analyzer: bool, device: Device, source: string -> seq<byte>, codec: Codec, name: string,
                       id: string, devSize: nat)
    returns (u: Usbsas)
    requires CodecOk(codec) && id != "" && IsFile(device, [name]) && device.attr[[name]].size <= devSize * 98 / 100
    ensures fresh(u) && u.Valid() && u.state == Ended && CountUnlocks(u.trace, Files2tar) == 2
  {
    var tar := new Archiver(codec, None);
    u := new Usbsas(analyzer, device, source, tar);
    AskCopy(u, id, [[name]], Usb(None));
    CopyOne(u, name, devSize);
    u.Wait(End, None);
    EndedRun(u);
    BadFsTold(u);
  }

  /** From the start to a copy request, with children that answer. */
  method AskCopy(u: Usbsas, id: string, selected: seq<Path>, to: Destination)
    requires u.Valid() && u.state == Init && id != ""
    modifies u
    ensures u.Valid() && u.state == CopyFiles(selected, to)
  {
    u.Wait(Id, Some(id));
    u.Wait(OpenDevice(true), Some(""));
    u.Wait(OpenPartition, Some(""));
    u.Wait(CopyStart(selected, Some(to)), None);
  }

  /** The copy of one file to a device of unknown type. */
  method CopyOne(u: Usbsas, name: string, devSize: nat)
    requires u.Valid() && u.state == CopyFiles([[name]], Usb(None)) && IsFile(u.device, [name])
    requires u.device.attr[[name]].size <= devSize * 98 / 100
    modifies u, u.tar
    ensures u.Valid() && u.state == WaitEnd && u.facts.badFs
  {
    var ok;
    ghost var files, dirs, r;
    ok, files, dirs, r := u.RunCopy(Some([true]), Some([]), Some(devSize));
    OneFile(u.device, name, ok, files, dirs);
    assert Marked(files, [true], true) == Marked(files[..0], [true][..0], true) + [[name]];
  }

  /** A transfer: the files and directories that passed the filter, the clean files, and what was asked for them. */
  datatype Transfer = Transfer(files: seq<Path>, dirs: seq<Path>, kept: seq<Path>, sending: Sending,
                               chunks: seq<seq<byte>>, reading: Reading)

  /**
   A copy to a USB device from its start to its end. When the transfer is done, files2fs got the directories that passed
   the filter, and each file that did and is clean, if it is not among the errors. If every file came in full from the
   source, it got what the source has in a file of that name.
   */
  method CopyToDevice(u: Usbsas, fileReply: Option<seq<bool>>, dirReply: Option<seq<bool>>, devSize: Option<nat>)
    returns (errors: seq<Path>, ghost all: seq<Path>, ghost allDirs: seq<Path>, ghost t: Transfer)
    requires u.Valid() && u.state.CopyFiles? && u.tar.prefix == None
    modifies u, u.tar
    ensures u.Valid()
    ensures u.state == TransferDone ==>
              && Listed(u.device, old(u.state).selected, true, all, allDirs)
              && Answers(fileReply, all) && t.files == Marked(all, fileReply.value, true)
              && Answers(dirReply, allDirs) && t.dirs == Marked(allDirs, dirReply.value, true)
              && (u.analyzer ==> u.facts.clean.Some?)
              && t.kept == if u.analyzer then Clean(t.files, u.facts.clean.value) else t.files
    ensures u.state == TransferDone ==>
              Wrote(Index(u.tar.codec, u.tar.out, 0), u.tar.out, t.dirs, t.kept, errors, t.sending, t.chunks,
                    old(u.acts), u.acts)
    ensures u.state == TransferDone && t.reading.full ==>
              forall i | 0 <= i < |t.kept| && t.sending.marks[i] ::
                Arrived(u.source, t.dirs + t.files, t.kept[i], t.sending.datas[i])
  {
    errors, t := [], Transfer([], [], [], Sending([], [], []), [], Reading([], [], [], false));
    var ok;
    ghost var r;
    ok, all, allDirs, r := u.RunCopy(fileReply, dirReply, devSize);
    if !u.state.WriteFiles? { return; }
    ghost var files, dirs := u.state.files, u.state.dirs;
    ghost var kept, s, chunks;
    errors, kept, s, chunks := u.RunWrite();
    t := Transfer(files, dirs, kept, s, chunks, r);
    if u.state == TransferDone && r.full { AllArrived(u.tar, u.source, dirs + files, r, kept, s); }
  }

  lemma AllArrived(tar: Archiver, source: string -> seq<byte>, paths: seq<Path>, r: Reading, files: seq<Path>,
                   s: Sending)
    requires Made(tar, source, paths, r) && r.full && tar.prefix == None
    requires SendingOk(Index(tar.codec, tar.out, 0), tar.out, files, s)
    ensures forall i | 0 <= i < |files| && s.marks[i] :: Arrived(source, paths, files[i], s.datas[i])
  {
    assert OpenSend();
    forall i | 0 <= i < |files| && s.marks[i]
      ensures Arrived(source, paths, files[i], s.datas[i])
    {
      CopiedFromSource(tar, source, paths, r, s.parts[i], files[i], s.datas[i]);
    }
  }

  /** At any moment of any run, every event so far was allowed by the events before it. */
  lemma EveryRun(u: Usbsas, i: nat)
    requires u.Valid() && i < |u.trace|
    ensures AllowedAt(u.analyzer, u.trace, i)
  {
    assert OpenFacts();
    SafeTrace(u.analyzer, u.trace, i);
  }

  /** At any moment of any run, a file in a closed archive was let through by the filter. */
  lemma ArchivedPassed(u: Usbsas, i: nat)
    requires u.Valid() && u.tar.closed && Extra(u.tar) <= i < |u.tar.entries| - Extra(u.tar)
    ensures exists p | WasPassed(u.trace, |u.trace|, p) :: u.tar.entries[i].header.path == u.tar.NameOf(Spell(p))
  {
    assert OpenFacts();
    assert NamedAfter(u.tar, u.tar.entries[i], u.facts.pathsOk);
    var p :| p in u.facts.pathsOk && u.tar.entries[i].header.path == u.tar.NameOf(Spell(p));
    PassedFrom(u.analyzer, u.trace, p);
  }
}
