/** Expanding the selection into the files to copy and the directories they need. */
module Expansion {

  /** A normalised path: its components, outermost first. */
  type Path = seq<string>

  datatype Kind = File(size: nat) | Dir | Special

  /** The source device: what `getattr` answers, and which names `readdir` lists; a missing path is an error. */
  datatype Device = Device(attr: map<Path, Kind>, kids: map<Path, seq<string>>)

  predicate IsDir(d: Device, p: Path) {
    p in d.attr && d.attr[p] == Dir
  }

  predicate IsFile(d: Device, p: Path) {
    p in d.attr && d.attr[p].File?
  }

  /** `readdir` lists `name` in `p`. */
  predicate Lists(d: Device, p: Path, name: string) {
    IsDir(d, p) && p in d.kids && name in d.kids[p]
  }

  /** `f` is `s` or below it, through directories that list the way. */
  ghost predicate Reaches(d: Device, s: Path, f: Path) {
    s <= f && forall i | |s| <= i < |f| :: Lists(d, f[..i], f[i])
  }

  ghost predicate Reached(d: Device, from: seq<Path>, f: Path) {
    exists k | 0 <= k < |from| :: Reaches(d, from[k], f)
  }

  lemma ReachesStep(d: Device, s: Path, f: Path)
    requires Reaches(d, s, f) && s != f
    ensures Lists(d, s, f[|s|]) && Reaches(d, s + [f[|s|]], f)
  {
    assert f[..|s|] == s;
    assert Lists(d, f[..|s|], f[|s|]);
  }

  lemma ReachesChild(d: Device, s: Path, p: Path, name: string)
    requires Reaches(d, s, p) && Lists(d, p, name)
    ensures Reaches(d, s, p + [name])
  {
    var f := p + [name];
    forall i | |s| <= i < |f|
      ensures Lists(d, f[..i], f[i])
    {
      if i < |p| { assert f[..i] == p[..i]; } else { assert f[..i] == p; }
    }
  }

  // ---- why the worklist ends ----

  ghost function MaxLen(s: set<Path>): (n: nat)
    ensures forall p | p in s :: |p| <= n
  {
    if s == {} then 0
    else
      var p :| p in s;
      var m := MaxLen(s - {p});
      if |p| > m then |p| else m
  }

  /** How many paths the worklist will take from `p`. */
  ghost function Weight(d: Device, p: Path): (w: nat)
    ensures w >= 1
    decreases MaxLen(d.attr.Keys) + 1 - |p|, 1, 0
  {
    if IsDir(d, p) && p in d.kids then 1 + Weights(d, p, d.kids[p]) else 1
  }

  ghost function Weights(d: Device, p: Path, names: seq<string>): nat
    requires IsDir(d, p)
    decreases MaxLen(d.attr.Keys) + 1 - |p|, 0, |names|
  {
    if names == [] then 0 else Weight(d, p + [names[0]]) + Weights(d, p, names[1..])
  }

  ghost function Total(d: Device, todo: seq<Path>): nat {
    if todo == [] then 0 else Weight(d, todo[0]) + Total(d, todo[1..])
  }

  lemma {:induction false} TotalAppend(d: Device, a: seq<Path>, b: seq<Path>)
    ensures Total(d, a + b) == Total(d, a) + Total(d, b)
  {
    if a == [] {
      assert a + b == b;
    } else {
      TotalAppend(d, a[1..], b);
      assert (a + b)[1..] == a[1..] + b;
    }
  }

  function Children(p: Path, names: seq<string>): (r: seq<Path>)
    ensures |r| == |names| && forall i | 0 <= i < |r| :: r[i] == p + [names[i]]
  {
    seq(|names|, i requires 0 <= i < |names| => p + [names[i]])
  }

  lemma {:induction false} TotalChildren(d: Device, p: Path, names: seq<string>)
    requires IsDir(d, p)
    ensures Total(d, Children(p, names)) == Weights(d, p, names)
  {
    if names != [] {
      TotalChildren(d, p, names[1..]);
      assert Children(p, names)[1..] == Children(p, names[1..]);
    }
  }

  // ---- directories before what is in them ----

  /** Every proper ancestor of `p` is in `dirs`. */
  ghost predicate Housed(dirs: seq<Path>, p: Path) {
    forall j | 0 < j < |p| :: p[..j] in dirs
  }

  /** `assert OpenOrder();` lets the verifier look at the order of the directories. */
  ghost predicate OpenOrder(z: int := 0) {
    true
  }

  /** Every directory comes after its ancestors. */
  ghost predicate Ordered(dirs: seq<Path>) {
    forall z {:trigger OpenOrder(z)} :: OpenOrder(z) ==> forall i | 0 <= i < |dirs| :: Housed(dirs[..i], dirs[i])
  }

  lemma OrderedSnoc(dirs: seq<Path>, p: Path)
    requires Ordered(dirs) && Housed(dirs, p)
    ensures Ordered(dirs + [p])
  {
    assert OpenOrder();
    var all := dirs + [p];
    forall i | 0 <= i < |all|
      ensures Housed(all[..i], all[i])
    {
      if i < |dirs| { assert all[..i] == dirs[..i]; } else { assert all[..i] == dirs; }
    }
  }

  /** Add the ancestors of `entry` that are not listed yet, outermost first. */
  method AddParents(dirs0: seq<Path>, entry: Path) returns (dirs: seq<Path>)
    requires Ordered(dirs0)
    ensures Ordered(dirs) && Housed(dirs, entry) && dirs0 <= dirs
    ensures forall p | p in dirs :: p in dirs0 || IsAbove(p, entry)
  {
    dirs := dirs0;
    var n := 1;
    while n < |entry|
      invariant 1 <= n && Ordered(dirs) && dirs0 <= dirs
      invariant forall j | 0 < j < n && j < |entry| :: entry[..j] in dirs
      invariant forall p | p in dirs :: p in dirs0 || IsAbove(p, entry)
    {
      var parent := entry[..n];
      if parent !in dirs {
        assert Housed(dirs, parent) by {
          forall j | 0 < j < |parent|
            ensures parent[..j] in dirs
          {
            assert parent[..j] == entry[..j];
          }
        }
        OrderedSnoc(dirs, parent);
        dirs := dirs + [parent];
      }
      n := n + 1;
    }
  }

  // ---- the expansion ----

  function Size(d: Device, p: Path): nat {
    if IsFile(d, p) then d.attr[p].size else 0
  }

  function SizeSum(d: Device, files: seq<Path>): nat {
    if files == [] then 0 else SizeSum(d, files[..|files| - 1]) + Size(d, files[|files| - 1])
  }

  ghost predicate NoDuplicates(files: seq<Path>) {
    forall i, j | 0 <= i < j < |files| :: files[i] != files[j]
  }

  /** The worklist covers what is still to be seen: all that is reachable was seen or is reachable from it. */
  ghost predicate CoveredBy(d: Device, selected: seq<Path>, todo: seq<Path>, seen: set<Path>) {
    && (forall k | 0 <= k < |todo| :: Reached(d, selected, todo[k]))
    && (forall p | p in seen :: Reached(d, selected, p))
    && (forall p | Reached(d, selected, p) :: p in seen || Reached(d, todo, p))
  }

  ghost predicate Covered(d: Device, selected: seq<Path>, todo: seq<Path>, seen: set<Path>) {
    forall z {:trigger OpenLists(z)} :: OpenLists(z) ==> CoveredBy(d, selected, todo, seen)
  }

  /** What is put on the worklist for an entry. */
  function Pushed(d: Device, entry: Path): seq<Path> {
    if IsDir(d, entry) && entry in d.kids then Children(entry, d.kids[entry]) else []
  }

  /** One path further: it is seen, and what it lists joins the worklist. */
  lemma CoveredNext(d: Device, selected: seq<Path>, todo: seq<Path>, seen: set<Path>)
    requires Covered(d, selected, todo, seen) && todo != []
    ensures Reached(d, selected, todo[0])
    ensures Covered(d, selected, todo[1..] + Pushed(d, todo[0]), seen + {todo[0]}) == true
  {
    assert OpenLists();
    var entry, rest := todo[0], todo[1..] + Pushed(d, todo[0]);
    forall k | 0 <= k < |rest|
      ensures Reached(d, selected, rest[k])
    {
      if k < |todo| - 1 {
        assert rest[k] == todo[k + 1];
      } else {
        var name := d.kids[entry][k - (|todo| - 1)];
        var m :| 0 <= m < |selected| && Reaches(d, selected[m], entry);
        ReachesChild(d, selected[m], entry, name);
      }
    }
    forall p | Reached(d, selected, p)
      ensures p in seen + {entry} || Reached(d, rest, p)
    {
      if p !in seen && p != entry {
        var k :| 0 <= k < |todo| && Reaches(d, todo[k], p);
        if k > 0 {
          assert rest[k - 1] == todo[k];
        } else {
          ReachesStep(d, entry, p);
          var i :| 0 <= i < |d.kids[entry]| && d.kids[entry][i] == p[|entry|];
          assert rest[|todo| - 1 + i] == entry + [p[|entry|]];
        }
      }
    }
  }

  lemma CoveredFirst(d: Device, selected: seq<Path>)
    ensures Covered(d, selected, selected, {})
  {
    forall k | 0 <= k < |selected|
      ensures Reached(d, selected, selected[k])
    {
      assert Reaches(d, selected[k], selected[k]);
    }
  }

  /** The lists that grow: files, directories, errors, and the set of what was put in the first two. */
  datatype Worklist = Worklist(files: seq<Path>, dirs: seq<Path>, errors: seq<Path>, entries: set<Path>, total: nat)

  /** `assert OpenLists();` lets the verifier look at what is in the lists. */
  ghost predicate OpenLists(z: int := 0) {
    true
  }

  /** Every path seen is where it belongs, and the lists hold nothing else. */
  ghost predicate Placed(d: Device, seen: set<Path>, l: Worklist) {
    && (forall p | p in seen :: if IsFile(d, p) then p in l.files else if IsDir(d, p) then p in l.dirs else p in l.errors)
    && (forall f | f in l.files :: f in seen && IsFile(d, f) && Housed(l.dirs, f) && f in l.entries)
    && (forall e | e in l.errors :: e in seen && !IsFile(d, e) && !IsDir(d, e))
    && (forall p | p in l.entries :: p in seen)
    && NoDuplicates(l.files)
  }

  ghost predicate Sorted(d: Device, seen: set<Path>, l: Worklist) {
    && Ordered(l.dirs) && l.total == SizeSum(d, l.files)
    && forall z {:trigger OpenLists(z)} :: OpenLists(z) ==> Placed(d, seen, l)
  }

  /** `p` is a proper ancestor of `q`. */
  predicate IsAbove(p: Path, q: Path) {
    0 < |p| < |q| && p == q[..|p|]
  }

  /** Every directory listed was seen, or is above something that was. */
  ghost predicate NeededBy(d: Device, seen: set<Path>, dirs: seq<Path>) {
    forall p | p in dirs :: (p in seen && IsDir(d, p)) || exists q | q in seen :: IsAbove(p, q)
  }

  ghost predicate Needed(d: Device, seen: set<Path>, dirs: seq<Path>) {
    forall z {:trigger OpenLists(z)} :: OpenLists(z) ==> NeededBy(d, seen, dirs)
  }

  /** The ancestors of an entry that is seen now, and perhaps the entry itself. */
  lemma NeededNext(d: Device, seen: set<Path>, dirs: seq<Path>, dirs': seq<Path>, entry: Path)
    requires Needed(d, seen, dirs)
    requires forall p | p in dirs' :: p in dirs || IsAbove(p, entry) || (p == entry && IsDir(d, p))
    ensures Needed(d, seen + {entry}, dirs') == true
  {
    assert OpenLists();
    forall p | p in dirs'
      ensures (p in seen + {entry} && IsDir(d, p)) || exists q | q in seen + {entry} :: IsAbove(p, q)
    {
      if p in dirs && !(p in seen && IsDir(d, p)) {
        var q :| q in seen && IsAbove(p, q);
        assert q in seen + {entry};
      } else if IsAbove(p, entry) {
        assert entry in seen + {entry};
      }
    }
  }

  lemma NeededReached(d: Device, selected: seq<Path>, todo: seq<Path>, seen: set<Path>, dirs: seq<Path>)
    requires Covered(d, selected, todo, seen) && Needed(d, seen, dirs)
    ensures forall p | p in dirs ::
              (IsDir(d, p) && Reached(d, selected, p)) || exists q | Reached(d, selected, q) :: IsAbove(p, q)
  {
    assert OpenLists();
    forall p | p in dirs && !(IsDir(d, p) && Reached(d, selected, p))
      ensures exists q | Reached(d, selected, q) :: IsAbove(p, q)
    {
      var q :| q in seen && IsAbove(p, q);
      assert Reached(d, selected, q);
    }
  }

  lemma HousedMore(dirs: seq<Path>, dirs': seq<Path>, p: Path)
    requires Housed(dirs, p) && dirs <= dirs'
    ensures Housed(dirs', p)
  {
    forall j | 0 < j < |p|
      ensures p[..j] in dirs'
    {
      assert p[..j] in dirs;
    }
  }

  lemma PlacedMoreDirs(d: Device, seen: set<Path>, l: Worklist, dirs: seq<Path>)
    requires Placed(d, seen, l) && l.dirs <= dirs
    ensures Placed(d, seen, l.(dirs := dirs))
  {
    forall f | f in l.files
      ensures Housed(dirs, f)
    {
      HousedMore(l.dirs, dirs, f);
    }
  }

  lemma {:induction false} SortedMoreDirs(d: Device, seen: set<Path>, l: Worklist, dirs: seq<Path>)
    requires Sorted(d, seen, l) && Ordered(dirs) && l.dirs <= dirs
    ensures Sorted(d, seen, l.(dirs := dirs)) == true
  {
    assert OpenLists();
    PlacedMoreDirs(d, seen, l, dirs);
  }

  lemma {:induction false} SortedFile(d: Device, seen: set<Path>, l: Worklist, f: Path)
    requires Sorted(d, seen, l) && IsFile(d, f) && Housed(l.dirs, f)
    ensures f in l.entries ==> Sorted(d, seen + {f}, l) == true
    ensures f !in l.entries ==>
              Sorted(d, seen + {f}, l.(files := l.files + [f], total := l.total + d.attr[f].size, entries := l.entries + {f})) == true
  {
    assert OpenLists();
    assert (l.files + [f])[..|l.files|] == l.files;
  }

  lemma {:induction false} SortedDir(d: Device, seen: set<Path>, l: Worklist, p: Path)
    requires Sorted(d, seen, l) && IsDir(d, p) && p in l.dirs
    ensures Sorted(d, seen + {p}, l.(entries := l.entries + {p})) == true
  {
    assert OpenLists();
  }

  lemma {:induction false} SortedError(d: Device, seen: set<Path>, l: Worklist, p: Path)
    requires Sorted(d, seen, l) && !IsFile(d, p) && !IsDir(d, p)
    ensures Sorted(d, seen + {p}, l.(errors := l.errors + [p])) == true
  {
    assert OpenLists();
  }

  /**
   `selected_to_files_list`: on any device the worklist ends. Unless a directory cannot be read, the files
   are exactly the reachable ones, each once, with their sizes summed up; the directories are the reachable ones and
   what is above something reachable, every one after its own ancestors; what cannot be read is among the errors.
   */
  method Expand(d: Device, selected: seq<Path>)
    returns (ok: bool, files: seq<Path>, dirs: seq<Path>, errors: seq<Path>, total: nat)
    ensures NoDuplicates(files) && Ordered(dirs) && total == SizeSum(d, files)
    ensures forall f | f in files :: IsFile(d, f) && Reached(d, selected, f) && Housed(dirs, f)
    ensures ok ==> forall f | IsFile(d, f) && Reached(d, selected, f) :: f in files
    ensures ok ==> forall p | IsDir(d, p) && Reached(d, selected, p) :: p in dirs
    ensures forall p | p in dirs ::
              (IsDir(d, p) && Reached(d, selected, p)) || exists q | Reached(d, selected, q) :: IsAbove(p, q)
    ensures ok ==> forall e :: e in errors <==> !IsFile(d, e) && !IsDir(d, e) && Reached(d, selected, e)
    ensures !ok ==> exists p :: IsDir(d, p) && p !in d.kids && Reached(d, selected, p)
  {
    var l := Worklist([], [], [], {}, 0);
    var todo := selected;
    ghost var seen: set<Path> := {};
    CoveredFirst(d, selected);
    while todo != []
      invariant Covered(d, selected, todo, seen) == true && Sorted(d, seen, l) == true && Needed(d, seen, l.dirs) == true
      decreases Total(d, todo)
    {
      var entry := todo[0];
      CoveredNext(d, selected, todo, seen);
      TotalNext(d, todo);
      ghost var next := todo[1..] + Pushed(d, entry);
      todo := todo[1..];
      l := Classify(d, entry, l, seen);
      seen := seen + {entry};
      if IsDir(d, entry) {
        if entry !in d.kids {
          Concluded(d, selected, next, seen, l);
          NeededReached(d, selected, next, seen, l.dirs);
          return false, l.files, l.dirs, l.errors, l.total;
        }
        todo := todo + Children(entry, d.kids[entry]);
      }
      assert todo == next;
    }
    Concluded(d, selected, todo, seen, l);
    NeededReached(d, selected, todo, seen, l.dirs);
    return true, l.files, l.dirs, l.errors, l.total;
  }

  /** What the lists are worth. */
  lemma {:induction false} Concluded(d: Device, selected: seq<Path>, todo: seq<Path>, seen: set<Path>, l: Worklist)
    requires Covered(d, selected, todo, seen) && Sorted(d, seen, l)
    ensures NoDuplicates(l.files)
    ensures forall f | f in l.files :: IsFile(d, f) && Reached(d, selected, f) && Housed(l.dirs, f)
    ensures todo == [] ==> forall f | IsFile(d, f) && Reached(d, selected, f) :: f in l.files
    ensures todo == [] ==> forall p | IsDir(d, p) && Reached(d, selected, p) :: p in l.dirs
    ensures todo == [] ==> forall e :: e in l.errors <==> !IsFile(d, e) && !IsDir(d, e) && Reached(d, selected, e)
  {
    assert OpenLists();
  }

  lemma {:induction false} TotalNext(d: Device, todo: seq<Path>)
    requires todo != []
    ensures Total(d, todo[1..] + Pushed(d, todo[0])) < Total(d, todo)
  {
    var entry := todo[0];
    TotalAppend(d, todo[1..], Pushed(d, entry));
    if IsDir(d, entry) && entry in d.kids { TotalChildren(d, entry, d.kids[entry]); }
  }

  /** What is done with one path, up to listing a directory. */
  method Classify(d: Device, entry: Path, l: Worklist, ghost seen: set<Path>) returns (r: Worklist)
    requires Sorted(d, seen, l) && Needed(d, seen, l.dirs)
    ensures Sorted(d, seen + {entry}, r) && Needed(d, seen + {entry}, r.dirs) == true
  {
    var dirs := AddParents(l.dirs, entry);
    NeededNext(d, seen, l.dirs, dirs, entry);
    if IsDir(d, entry) { NeededNext(d, seen, l.dirs, dirs + [entry], entry); }
    SortedMoreDirs(d, seen, l, dirs);
    r := l.(dirs := dirs);
    if IsFile(d, entry) { SortedFile(d, seen, r, entry); } else if !IsDir(d, entry) { SortedError(d, seen, r, entry); }
    if entry !in d.attr {
      r := r.(errors := r.errors + [entry]);
    } else {
      match d.attr[entry] {
        case File(size) =>
          if entry !in r.entries {
            r := r.(files := r.files + [entry], total := r.total + size, entries := r.entries + {entry});
          }
        case Dir =>
          if entry !in r.entries {
            OrderedSnoc(dirs, entry);
            SortedMoreDirs(d, seen, r, dirs + [entry]);
            SortedDir(d, seen, r.(dirs := dirs + [entry]), entry);
            r := r.(dirs := dirs + [entry], entries := r.entries + {entry});
          } else {
            SeenDir(d, seen, r, entry);
          }
        case Special =>
          r := r.(errors := r.errors + [entry]);
      }
    }
  }

  lemma {:induction false} SeenDir(d: Device, seen: set<Path>, l: Worklist, p: Path)
    requires Sorted(d, seen, l) && IsDir(d, p) && p in l.entries
    ensures Sorted(d, seen + {p}, l) == true
  {
    assert OpenLists();
    assert seen + {p} == seen;
  }
}
