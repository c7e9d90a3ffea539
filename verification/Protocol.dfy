/** What the orchestrator sends its children: traces, and what they must look like. */
module Protocol {
  import opened Options
  import opened Expansion
  import opened FatCodec

  /** The children that matter here; files2tar, fs2dev and tar2files wait for a raw unlock message first. */
  datatype Child = Files2tar | Fs2dev | Tar2files | Files2fs | Analyzer | Others

  /** What matters of a request: a directory or the start of a file, its data and its end, and so on. */
  datatype Ask =
    | NewFile(path: Path, regular: bool) | WriteFile(path: Path, offset: nat, data: seq<byte>) | EndFile(path: Path)
    | LoadBits(chunk: seq<byte>, last: bool) | StartCopy | WipeAsk | UploadAsk | ExecAsk | EndAsk | Plain

  datatype Event =
    | Unlock(child: Child)                 // a raw message
    | Request(child: Child, ask: Ask)      // a framed message
    | CopyBegun(id: string)                // the client's copy request was accepted
    | Expanded(files: set<Path>)           // the selection was expanded
    | PathsOk(paths: set<Path>)            // the filter answered
    | Analyzed(clean: set<Path>)           // the analyzer answered
    | BadFsType                            // the copy request carries no known file system type

  /** The end of what happened so far. */
  datatype Facts = Facts(
    tar: nat, dev: nat, tar2: nat,         // unlock messages to files2tar, fs2dev, tar2files
    early: bool,                           // one of them got a framed message while locked
    copying: bool,
    expanded: set<Path>,
    pathsOk: set<Path>,
    clean: Option<set<Path>>,
    badFs: bool,
    wrong: bool,                           // a file or a copy was let through that should not have been
    analyzer: bool)

  function Unlocks(f: Facts, c: Child): nat {
    match c
    case Files2tar => f.tar
    case Fs2dev => f.dev
    case Tar2files => f.tar2
    case _ => 1
  }

  /** A file may go to files2fs: it was selected and passed the filter, and with an analyzer it was found clean. */
  predicate MaySend(f: Facts, path: Path) {
    path in f.expanded && path in f.pathsOk && (f.analyzer ==> f.clean.Some? && path in f.clean.value)
  }

  /** The request is about the data of a file. */
  predicate Carries(a: Ask) {
    (a.NewFile? && a.regular) || a.WriteFile?
  }

  predicate Unsafe(f: Facts, c: Child, a: Ask) {
    || (c == Files2fs && Carries(a) && !MaySend(f, a.path))
    || (c == Fs2dev && a == StartCopy && f.copying && f.analyzer && f.clean.None?)
  }

  function Update(f: Facts, e: Event): Facts {
    match e
    case Unlock(Files2tar) => f.(tar := f.tar + 1)
    case Unlock(Fs2dev) => f.(dev := f.dev + 1)
    case Unlock(Tar2files) => f.(tar2 := f.tar2 + 1)
    case Unlock(_) => f
    case Request(c, a) => f.(early := f.early || Unlocks(f, c) == 0, wrong := f.wrong || Unsafe(f, c, a))
    case CopyBegun(id) => f.(copying := true, wrong := f.wrong || id == "")
    case Expanded(files) => f.(expanded := files)
    case PathsOk(paths) => f.(pathsOk := f.pathsOk + paths)
    case Analyzed(clean) => f.(clean := Some(clean))
    case BadFsType => f.(badFs := true)
  }

  function FactsOf(analyzer: bool, t: seq<Event>): Facts {
    if t == [] then Facts(0, 0, 0, false, false, {}, {}, None, false, false, analyzer)
    else Update(FactsOf(analyzer, t[..|t| - 1]), t[|t| - 1])
  }

  lemma {:induction false} FactsSnoc(analyzer: bool, t: seq<Event>, e: Event)
    ensures FactsOf(analyzer, t + [e]) == Update(FactsOf(analyzer, t), e)
  {
    assert (t + [e])[..|t|] == t;
  }

  /** `assert OpenFacts();` lets the verifier look at where the facts come from. */
  ghost predicate OpenFacts(z: int := 0) {
    true
  }

  ghost predicate Tells(analyzer: bool, t: seq<Event>, f: Facts) {
    forall z {:trigger OpenFacts(z)} :: OpenFacts(z) ==> f == FactsOf(analyzer, t)
  }

  lemma {:induction false} TellsSnoc(analyzer: bool, t: seq<Event>, f: Facts, e: Event)
    requires Tells(analyzer, t, f)
    ensures Tells(analyzer, t + [e], Update(f, e)) == true
  {
    assert OpenFacts();
    FactsSnoc(analyzer, t, e);
  }

  /** The event itself, if it is a request that is not plain. */
  function Acts(e: Event): seq<Event> {
    if e.Request? && !e.ask.Plain? then [e] else []
  }

  /** The requests that are not plain, in order. */
  function Requests(t: seq<Event>): seq<Event> {
    if t == [] then [] else Requests(t[..|t| - 1]) + Acts(t[|t| - 1])
  }

  ghost predicate ActsOf(t: seq<Event>, acts: seq<Event>) {
    forall z {:trigger OpenFacts(z)} :: OpenFacts(z) ==> acts == Requests(t)
  }

  lemma {:induction false} ActsSnoc(t: seq<Event>, acts: seq<Event>, e: Event)
    requires ActsOf(t, acts)
    ensures ActsOf(t + [e], acts + Acts(e)) == true
  {
    assert OpenFacts();
    assert (t + [e])[..|t|] == t;
  }

  // ---- what the facts say about a trace ----

  /** How often a child was unlocked. */
  function CountUnlocks(t: seq<Event>, c: Child): nat {
    if t == [] then 0 else CountUnlocks(t[..|t| - 1], c) + if t[|t| - 1] == Unlock(c) then 1 else 0
  }

  /** Every framed message to `c` comes after an unlock message to it. */
  ghost predicate UnlockedFirst(t: seq<Event>, c: Child) {
    forall i | 0 <= i < |t| && t[i].Request? && t[i].child == c :: exists j | 0 <= j < i :: t[j] == Unlock(c)
  }

  ghost predicate Waits(c: Child) {
    c in {Files2tar, Fs2dev, Tar2files}
  }

  lemma {:induction false} UnlocksCounted(analyzer: bool, t: seq<Event>, c: Child)
    requires Waits(c)
    ensures Unlocks(FactsOf(analyzer, t), c) == CountUnlocks(t, c)
  {
    if t != [] {
      UnlocksCounted(analyzer, t[..|t| - 1], c);
    }
  }

  lemma {:induction false} CountMeans(t: seq<Event>, c: Child)
    ensures CountUnlocks(t, c) > 0 ==> exists j | 0 <= j < |t| :: t[j] == Unlock(c)
  {
    if t != [] {
      CountMeans(t[..|t| - 1], c);
      if CountUnlocks(t[..|t| - 1], c) > 0 {
        var j :| 0 <= j < |t| - 1 && t[..|t| - 1][j] == Unlock(c);
        assert t[j] == Unlock(c);
      } else if t[|t| - 1] == Unlock(c) {
        assert t[|t| - 1] == Unlock(c);
      }
    }
  }

  /** No early message means that each waiting child was unlocked before its first framed message. */
  lemma {:induction false} NotEarly(analyzer: bool, t: seq<Event>, c: Child)
    requires Waits(c) && !FactsOf(analyzer, t).early
    ensures UnlockedFirst(t, c)
  {
    if t != [] {
      var front := t[..|t| - 1];
      NotEarly(analyzer, front, c);
      UnlocksCounted(analyzer, front, c);
      CountMeans(front, c);
      forall i | 0 <= i < |t| && t[i].Request? && t[i].child == c
        ensures exists j | 0 <= j < i :: t[j] == Unlock(c)
      {
        if i < |front| {
          assert front[i] == t[i];
          var j :| 0 <= j < i && front[j] == Unlock(c);
          assert t[j] == Unlock(c);
        } else {
          var j :| 0 <= j < |front| && front[j] == Unlock(c);
          assert t[j] == Unlock(c);
        }
      }
    }
  }

  // the first `n` events hold an expansion with the path, an answer of the filter that passes it, one of the analyzer

  ghost predicate WasExpanded(t: seq<Event>, n: nat, path: Path) {
    exists j | 0 <= j < n && j < |t| :: t[j].Expanded? && path in t[j].files
  }

  ghost predicate WasPassed(t: seq<Event>, n: nat, path: Path) {
    exists j | 0 <= j < n && j < |t| :: t[j].PathsOk? && path in t[j].paths
  }

  ghost predicate WasClean(t: seq<Event>, n: nat, path: Path) {
    exists j | 0 <= j < n && j < |t| :: t[j].Analyzed? && path in t[j].clean
  }

  ghost predicate WasAnalyzed(t: seq<Event>, n: nat) {
    exists j | 0 <= j < n && j < |t| :: t[j].Analyzed?
  }

  ghost predicate HadBegun(t: seq<Event>, n: nat) {
    exists j | 0 <= j < n && j < |t| :: t[j].CopyBegun?
  }

  lemma {:induction false} ExpandedFrom(analyzer: bool, t: seq<Event>, path: Path)
    requires path in FactsOf(analyzer, t).expanded
    ensures WasExpanded(t, |t|, path)
  {
    var front, last := t[..|t| - 1], t[|t| - 1];
    if last.Expanded? {
      assert t[|t| - 1].Expanded?;
    } else {
      ExpandedFrom(analyzer, front, path);
      var j :| 0 <= j < |front| && front[j].Expanded? && path in front[j].files;
      assert t[j] == front[j];
    }
  }

  lemma {:induction false} PassedFrom(analyzer: bool, t: seq<Event>, path: Path)
    requires path in FactsOf(analyzer, t).pathsOk
    ensures WasPassed(t, |t|, path)
  {
    var front, last := t[..|t| - 1], t[|t| - 1];
    if last.PathsOk? && path in last.paths {
      assert t[|t| - 1].PathsOk?;
    } else {
      PassedFrom(analyzer, front, path);
      var j :| 0 <= j < |front| && front[j].PathsOk? && path in front[j].paths;
      assert t[j] == front[j];
    }
  }

  lemma {:induction false} AnalyzedFrom(analyzer: bool, t: seq<Event>, path: Path)
    requires FactsOf(analyzer, t).clean.Some?
    ensures WasAnalyzed(t, |t|) && (path in FactsOf(analyzer, t).clean.value ==> WasClean(t, |t|, path))
  {
    var front, last := t[..|t| - 1], t[|t| - 1];
    if last.Analyzed? {
      assert t[|t| - 1].Analyzed?;
    } else {
      AnalyzedFrom(analyzer, front, path);
      var j :| 0 <= j < |front| && front[j].Analyzed?;
      assert t[j] == front[j];
      if path in FactsOf(analyzer, t).clean.value {
        var k :| 0 <= k < |front| && front[k].Analyzed? && path in front[k].clean;
        assert t[k] == front[k];
      }
    }
  }

  lemma {:induction false} CopyingIff(analyzer: bool, t: seq<Event>, n: nat)
    requires n <= |t|
    ensures HadBegun(t, n) <==> FactsOf(analyzer, t[..n]).copying
    ensures FactsOf(analyzer, t[..n]).analyzer == analyzer
  {
    if n > 0 {
      CopyingIff(analyzer, t, n - 1);
      assert t[..n][..n - 1] == t[..n - 1];
      CopyingNext(FactsOf(analyzer, t[..n - 1]), t[n - 1]);
      if HadBegun(t, n) && !t[n - 1].CopyBegun? {
        var j :| 0 <= j < n && t[j].CopyBegun?;
        assert HadBegun(t, n - 1);
      }
    }
  }

  lemma CopyingNext(f: Facts, e: Event)
    ensures Update(f, e).copying == (f.copying || e.CopyBegun?) && Update(f, e).analyzer == f.analyzer
  {
  }

  /** Event `i` is allowed, judged by the events before it alone. */
  ghost predicate AllowedAt(analyzer: bool, t: seq<Event>, i: nat)
    requires i < |t|
  {
    && (t[i].Request? && t[i].child == Files2fs && Carries(t[i].ask) ==>
          && WasExpanded(t, i, t[i].ask.path) && WasPassed(t, i, t[i].ask.path)
          && (analyzer ==> WasClean(t, i, t[i].ask.path)))
    && (t[i] == Request(Fs2dev, StartCopy) && HadBegun(t, i) && analyzer ==> WasAnalyzed(t, i))
    && (t[i].CopyBegun? ==> t[i].id != "")
  }

  lemma PrefixWas(t: seq<Event>, n: nat, path: Path)
    requires n <= |t|
    ensures WasExpanded(t[..n], n, path) ==> WasExpanded(t, n, path)
    ensures WasPassed(t[..n], n, path) ==> WasPassed(t, n, path)
    ensures WasClean(t[..n], n, path) ==> WasClean(t, n, path)
    ensures WasAnalyzed(t[..n], n) ==> WasAnalyzed(t, n)
  {
    assert forall j | 0 <= j < n :: t[..n][j] == t[j];
  }

  /** Facts about a longer trace only get worse. */
  lemma {:induction false} SafeBefore(analyzer: bool, t: seq<Event>, n: nat)
    requires n <= |t| && !FactsOf(analyzer, t).wrong
    ensures !FactsOf(analyzer, t[..n]).wrong
    decreases |t|
  {
    if n < |t| {
      SafeBefore(analyzer, t[..|t| - 1], n);
      assert t[..|t| - 1][..n] == t[..n];
    } else {
      assert t[..n] == t;
    }
  }

  /** A trace without an unsafe step is one in which every event is allowed. */
  lemma {:induction false} SafeTrace(analyzer: bool, t: seq<Event>, i: nat)
    requires !FactsOf(analyzer, t).wrong && i < |t|
    ensures AllowedAt(analyzer, t, i)
  {
    var before, f := t[..i], FactsOf(analyzer, t[..i]);
    SafeBefore(analyzer, t, i + 1);
    assert t[..i + 1] == before + [t[i]];
    FactsSnoc(analyzer, before, t[i]);
    CopyingIff(analyzer, t, i);
    if t[i].Request? && t[i].child == Files2fs && Carries(t[i].ask) {
      var path := t[i].ask.path;
      assert MaySend(f, path);
      ExpandedFrom(analyzer, before, path);
      PassedFrom(analyzer, before, path);
      if analyzer { AnalyzedFrom(analyzer, before, path); }
      PrefixWas(t, i, path);
    }
    if t[i] == Request(Fs2dev, StartCopy) && HadBegun(t, i) && analyzer {
      AnalyzedFrom(analyzer, before, []);
      PrefixWas(t, i, []);
    }
  }

  lemma {:induction false} BadFsIff(analyzer: bool, t: seq<Event>)
    ensures FactsOf(analyzer, t).badFs <==> BadFsType in t
  {
    if t != [] {
      var front, e := t[..|t| - 1], t[|t| - 1];
      BadFsIff(analyzer, front);
      LastIn(t, BadFsType);
      BadFsNext(FactsOf(analyzer, front), e);
    }
  }

  lemma LastIn(t: seq<Event>, e: Event)
    requires t != []
    ensures e in t <==> e in t[..|t| - 1] || e == t[|t| - 1]
  {
    assert t == t[..|t| - 1] + [t[|t| - 1]];
  }

  lemma BadFsNext(f: Facts, e: Event)
    ensures Update(f, e).badFs <==> f.badFs || e == BadFsType
  {
  }
}
