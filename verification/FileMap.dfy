/** Where the sectors of a cluster chain are, and what a write does to the bytes of a file. */
module FileMap {
  import opened Arith
  import opened FatCodec
  import opened Volumes
  import opened Chains

  // ---- sector numbers ----

  /** First sector of cluster `c`. */
  function ClusterSector(g: Geometry, c: nat): nat
    requires c >= 2
  {
    g.database + Times(g.csize, c - 2)
  }

  /** `n` sector numbers from `s` on. */
  function SectorRun(s: nat, n: nat): (r: seq<nat>)
    ensures |r| == n && forall i | 0 <= i < n :: r[i] == s + i
  {
    seq(n, i requires 0 <= i => s + i)
  }

  /** The sector numbers of a cluster chain, in file order. */
  ghost function Addrs(g: Geometry, ch: seq<nat>): seq<nat>
    requires forall i | 0 <= i < |ch| :: ch[i] >= 2
  {
    if ch == [] then []
    else Addrs(g, ch[..|ch| - 1]) + SectorRun(ClusterSector(g, ch[|ch| - 1]), g.csize)
  }

  ghost predicate InVolume(g: Geometry, ch: seq<nat>) {
    forall i | 0 <= i < |ch| :: 2 <= ch[i] < g.nFatent
  }

  lemma {:induction false} AddrsLength(g: Geometry, ch: seq<nat>)
    requires forall i | 0 <= i < |ch| :: ch[i] >= 2
    ensures |Addrs(g, ch)| == Times(g.csize, |ch|)
  {
    if ch != [] {
      AddrsLength(g, ch[..|ch| - 1]);
    }
  }

  /** Sector `r` of cluster `k` of the chain. */
  lemma {:induction false} AddrsAt(g: Geometry, ch: seq<nat>, k: nat, r: nat)
    requires forall i | 0 <= i < |ch| :: ch[i] >= 2
    requires k < |ch| && r < g.csize
    ensures Times(g.csize, k) + r < |Addrs(g, ch)|
    ensures Addrs(g, ch)[Times(g.csize, k) + r] == ClusterSector(g, ch[k]) + r
  {
    var front := ch[..|ch| - 1];
    AddrsLength(g, front);
    if k < |front| {
      AddrsAt(g, front, k, r);
    }
  }

  /** The cluster and the offset in it of sector `q` of the chain. */
  lemma {:induction false} AddrsSplit(g: Geometry, ch: seq<nat>, q: nat)
    requires forall i | 0 <= i < |ch| :: ch[i] >= 2
    requires g.csize > 0 && q < |Addrs(g, ch)|
    ensures Quot(q, g.csize) < |ch| && Times(g.csize, Quot(q, g.csize)) <= q < Times(g.csize, Quot(q, g.csize)) + g.csize
    ensures Addrs(g, ch)[q] == ClusterSector(g, ch[Quot(q, g.csize)]) + (q - Times(g.csize, Quot(q, g.csize)))
  {
    AddrsLength(g, ch);
    QuotTimes(q, g.csize);
    var k := Quot(q, g.csize);
    if k >= |ch| {
      TimesMono(g.csize, |ch|, k);
    }
    AddrsAt(g, ch, k, q - Times(g.csize, k));
  }

  /** Different clusters have no sector in common. */
  lemma {:induction false} ClustersApart(g: Geometry, c: nat, d: nat)
    requires 2 <= c && 2 <= d && c != d
    ensures ClusterSector(g, c) + g.csize <= ClusterSector(g, d) || ClusterSector(g, d) + g.csize <= ClusterSector(g, c)
  {
    if c < d { TimesMono(g.csize, c - 2, d - 2); } else { TimesMono(g.csize, d - 2, c - 2); }
  }

  /** A chain without repetition uses no sector twice. */
  lemma {:induction false} AddrsDistinct(g: Geometry, ch: seq<nat>)
    requires InVolume(g, ch) && Distinct(ch) && g.csize > 0
    ensures Distinct(Addrs(g, ch))
  {
    var a := Addrs(g, ch);
    forall i, j | 0 <= i < j < |a|
      ensures a[i] != a[j]
    {
      AddrsSplit(g, ch, i);
      AddrsSplit(g, ch, j);
      var k, m := Quot(i, g.csize), Quot(j, g.csize);
      if k != m {
        ClustersApart(g, ch[k], ch[m]);
      }
    }
  }

  // ---- bytes of runs of sectors ----

  lemma {:induction false} FlatAppend(a: seq<Sector>, b: seq<Sector>)
    ensures Flat(a + b) == Flat(a) + Flat(b)
  {
    if b == [] {
      assert a + b == a;
    } else {
      var front := b[..|b| - 1];
      assert (a + b)[..|a + b| - 1] == a + front;
      FlatAppend(a, front);
    }
  }

  /** `s` with the elements from `at` on replaced by `data`. */
  function Splice<T>(s: seq<T>, at: nat, data: seq<T>): (r: seq<T>)
    requires at + |data| <= |s|
    ensures |r| == |s|
    ensures forall i | 0 <= i < |s| :: r[i] == if at <= i < at + |data| then data[i - at] else s[i]
  {
    s[..at] + data + s[at + |data|..]
  }

  lemma {:induction false} FlatParts(a: seq<Sector>, b: seq<Sector>, c: seq<Sector>)
    ensures Flat(a + b + c) == Flat(a) + Flat(b) + Flat(c)
  {
    FlatAppend(a + b, c);
    FlatAppend(a, b);
  }

  lemma SpliceParts<T>(a: seq<T>, b: seq<T>, c: seq<T>, d: seq<T>)
    requires |d| == |b|
    ensures Splice(a + b + c, |a|, d) == a + d + c
    ensures (a + b + c)[|a|..|a| + |b|] == b
  {
  }

  lemma Cut3<T>(s: seq<T>, lo: nat, hi: nat)
    requires lo <= hi <= |s|
    ensures s == s[..lo] + s[lo..hi] + s[hi..]
  {
  }

  /** Replacing whole sectors. */
  lemma {:induction false} FlatSplice(secs: seq<Sector>, ss: nat, q: nat, data: seq<Sector>)
    requires AllSized(secs, ss) && AllSized(data, ss) && q + |data| <= |secs|
    ensures AllSized(Splice(secs, q, data), ss)
    ensures Times(ss, q) + |Flat(data)| <= |Flat(secs)|
    ensures Flat(Splice(secs, q, data)) == Splice(Flat(secs), Times(ss, q), Flat(data))
  {
    var a, b, c := secs[..q], secs[q..q + |data|], secs[q + |data|..];
    Cut3(secs, q, q + |data|);
    FlatParts(a, b, c);
    FlatParts(a, data, c);
    FlatLength(a, ss);
    FlatLength(b, ss);
    FlatLength(data, ss);
    SpliceParts(Flat(a), Flat(b), Flat(c), Flat(data));
  }

  lemma FlatOne(sec: Sector)
    ensures Flat([sec]) == sec
  {
    assert [sec][..0] == [];
  }

  lemma {:induction false} FlatMiddle(a: seq<Sector>, b: seq<Sector>, c: seq<Sector>, ss: nat)
    requires AllSized(a, ss) && AllSized(b, ss)
    ensures Times(ss, |a|) + Times(ss, |b|) <= |Flat(a + b + c)|
    ensures Flat(a + b + c)[Times(ss, |a|)..Times(ss, |a|) + Times(ss, |b|)] == Flat(b)
  {
    FlatParts(a, b, c);
    FlatLength(a, ss);
    FlatLength(b, ss);
    SpliceParts(Flat(a), Flat(b), Flat(c), Flat(b));
  }

  /** The bytes of sectors `q` to `q + n`. */
  lemma {:induction false} FlatSlice(secs: seq<Sector>, ss: nat, q: nat, n: nat)
    requires AllSized(secs, ss) && q + n <= |secs|
    ensures Times(ss, q) + Times(ss, n) <= |Flat(secs)|
    ensures Flat(secs)[Times(ss, q)..Times(ss, q) + Times(ss, n)] == Flat(secs[q..q + n])
  {
    Cut3(secs, q, q + n);
    FlatMiddle(secs[..q], secs[q..q + n], secs[q + n..], ss);
  }

  lemma {:induction false} FlatSector(secs: seq<Sector>, ss: nat, q: nat)
    requires AllSized(secs, ss) && q < |secs|
    ensures Times(ss, q) + ss <= |Flat(secs)|
    ensures Flat(secs)[Times(ss, q)..Times(ss, q) + ss] == secs[q]
  {
    FlatSlice(secs, ss, q, 1);
    assert secs[q..q + 1] == [secs[q]];
    FlatOne(secs[q]);
    assert Times(ss, 1) == ss;
  }

  /** Replacing part of a replacement. */
  lemma SpliceWithin<T>(f: seq<T>, at: nat, sec: seq<T>, o: nat, data: seq<T>)
    requires at + |sec| <= |f| && f[at..at + |sec|] == sec && o + |data| <= |sec|
    ensures Splice(f, at, Splice(sec, o, data)) == Splice(f, at + o, data)
  {
    forall i | 0 <= i < |sec|
      ensures f[at + i] == sec[i]
    {
      assert f[at..at + |sec|][i] == sec[i];
    }
  }

  lemma UpdateIsSplice<T>(s: seq<T>, i: nat, x: T)
    requires i < |s|
    ensures s[i := x] == Splice(s, i, [x])
  {
  }

  /** Replacing bytes inside one sector. */
  lemma {:induction false} FlatPatch(secs: seq<Sector>, ss: nat, q: nat, o: nat, data: seq<byte>)
    requires AllSized(secs, ss) && q < |secs| && o + |data| <= ss
    ensures Times(ss, q) + ss <= |Flat(secs)|
    ensures Flat(secs[q := Splice(secs[q], o, data)]) == Splice(Flat(secs), Times(ss, q) + o, data)
  {
    var sec := Splice(secs[q], o, data);
    FlatSector(secs, ss, q);
    SpliceWithin(Flat(secs), Times(ss, q), secs[q], o, data);
    UpdateIsSplice(secs, q, sec);
    FlatUpdate(secs, ss, q, sec);
  }

  lemma {:induction false} FlatUpdate(secs: seq<Sector>, ss: nat, q: nat, sec: Sector)
    requires AllSized(secs, ss) && q < |secs| && |sec| == ss
    ensures Times(ss, q) + ss <= |Flat(secs)|
    ensures Flat(secs[q := sec]) == Splice(Flat(secs), Times(ss, q), sec)
  {
    UpdateIsSplice(secs, q, sec);
    FlatSplice(secs, ss, q, [sec]);
    FlatOne(sec);
  }

  /** `n` sectors of `ss` bytes from the front of `data`. */
  function Chunks(data: seq<byte>, ss: nat, n: nat): (secs: seq<Sector>)
    requires Times(ss, n) <= |data|
    ensures |secs| == n && AllSized(secs, ss)
    ensures Flat(secs) == data[..Times(ss, n)]
  {
    if n == 0 then []
    else
      var m := Times(ss, n - 1);
      var front := Chunks(data, ss, n - 1);
      var secs: seq<Sector> := front + [data[m..m + ss]];
      assert secs[..n - 1] == front;
      secs
  }

  // ---- what a write means ----

  /** A file's bytes after `data` was written at `pos`. */
  function WriteAt(c: seq<byte>, pos: nat, data: seq<byte>): (r: seq<byte>)
    requires pos <= |c|
    ensures |r| == if pos + |data| > |c| then pos + |data| else |c|
    ensures forall i | 0 <= i < |r| :: r[i] == if pos <= i < pos + |data| then data[i - pos] else c[i]
  {
    seq(if pos + |data| > |c| then pos + |data| else |c|,
        i requires 0 <= i && (i < |c| || pos <= i < pos + |data|) => if pos <= i < pos + |data| then data[i - pos] else c[i])
  }

  lemma WriteAtNone(c: seq<byte>, pos: nat)
    requires pos <= |c|
    ensures WriteAt(c, pos, []) == c
  {
  }

  /** Two adjacent writes are one. */
  lemma WriteAtTwice(c: seq<byte>, pos: nat, a: seq<byte>, b: seq<byte>)
    requires pos <= |c|
    ensures WriteAt(WriteAt(c, pos, a), pos + |a|, b) == WriteAt(c, pos, a + b)
  {
  }
}
