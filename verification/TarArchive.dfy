/** Tar archives as streams of bytes: what files2tar writes and what tar2files finds in it. */
module TarArchive {
  import opened Options
  import opened FatCodec

  const BLOCK: nat := 512

  datatype FileType = Regular | Directory | Other

  datatype Header = Header(path: string, ftype: FileType, size: nat, mtime: int)

  /** How headers are laid out in a block, for headers that fit; a library's business. */
  datatype Codec = Codec(enc: Header -> seq<byte>, dec: seq<byte> -> Option<Header>, fits: Header -> bool)

  function Zeros(n: nat): (z: seq<byte>)
    ensures |z| == n
  {
    seq(n, _ => 0)
  }

  /** Headers are blocks that read back; a block of zeros is none. */
  ghost predicate CodecOk(c: Codec) {
    && (forall h :: c.fits(h) ==> |c.enc(h)| == BLOCK && c.dec(c.enc(h)) == Some(h))
    && c.dec(Zeros(BLOCK)) == None
  }

  /** A file in the archive: its header and the bytes written after it. */
  datatype Entry = Entry(header: Header, data: seq<byte>)

  /** `endfile`: zeros up to a whole block. */
  function Padding(len: nat): nat {
    if len % BLOCK == 0 then 0 else BLOCK - len % BLOCK
  }

  function EntryBytes(c: Codec, e: Entry): seq<byte> {
    c.enc(e.header) + e.data + Zeros(Padding(|e.data|))
  }

  /** Entries one after the other. */
  function Stream(c: Codec, es: seq<Entry>): seq<byte> {
    if es == [] then [] else Stream(c, es[..|es| - 1]) + EntryBytes(c, es[|es| - 1])
  }

  /** Every byte the header announces was written, and no more. */
  predicate Exact(e: Entry) {
    |e.data| == e.header.size
  }

  ghost predicate Fit(c: Codec, es: seq<Entry>) {
    forall i | 0 <= i < |es| :: c.fits(es[i].header)
  }

  // ---- reading ----

  datatype Located = Located(header: Header, offset: nat)

  /** Block-aligned room for `size` bytes. */
  function Rounded(size: nat): nat {
    size + Padding(size)
  }

  /** Walk the headers from `p` on, up to a block that is none. */
  function Index(c: Codec, archive: seq<byte>, p: nat): seq<Located>
    decreases |archive| - p
  {
    if p + BLOCK > |archive| then []
    else
      match c.dec(archive[p..p + BLOCK])
      case None => []
      case Some(h) => [Located(h, p + BLOCK)] + Index(c, archive, p + BLOCK + Rounded(h.size))
  }

  /** The entry takes as many blocks as its header announces. */
  predicate Fills(e: Entry) {
    Rounded(|e.data|) == Rounded(e.header.size)
  }

  /** All entries but the last take the blocks they announce. */
  ghost predicate InStep(es: seq<Entry>) {
    forall i | 0 <= i < |es| - 1 :: Fills(es[i])
  }

  ghost predicate NoneOver(es: seq<Entry>) {
    forall i | 0 <= i < |es| :: |es[i].data| <= es[i].header.size
  }

  /** Where the headers and data of the entries really are. */
  function Places(es: seq<Entry>, p: nat): (ls: seq<Located>)
    ensures |ls| == |es|
  {
    if es == [] then []
    else [Located(es[0].header, p + BLOCK)] + Places(es[1..], p + BLOCK + Rounded(|es[0].data|))
  }

  lemma {:induction false} StreamSnoc(c: Codec, es: seq<Entry>, e: Entry)
    ensures Stream(c, es + [e]) == Stream(c, es) + EntryBytes(c, e)
  {
    assert (es + [e])[..|es|] == es;
  }

  lemma {:induction false} StreamCons(c: Codec, e: Entry, es: seq<Entry>)
    ensures Stream(c, [e] + es) == EntryBytes(c, e) + Stream(c, es)
  {
    var all := [e] + es;
    if es == [] {
      assert all == [e] && all[..0] == [];
      assert Stream(c, []) == [];
      assert Stream(c, all) == [] + EntryBytes(c, e);
    } else {
      StreamCons(c, e, es[..|es| - 1]);
      assert all[..|all| - 1] == [e] + es[..|es| - 1];
      assert all[|all| - 1] == es[|es| - 1];
    }
  }

  /** The parts of a string that starts with `a`, `b` and `c`. */
  lemma Parts(s: seq<byte>, p: nat, a: seq<byte>, b: seq<byte>, c: seq<byte>, d: seq<byte>)
    requires p <= |s| && s[p..] == a + b + c + d
    ensures p + |a| + |b| + |c| <= |s|
    ensures s[p..p + |a|] == a && s[p + |a|..p + |a| + |b|] == b && s[p + |a| + |b| + |c|..] == d
  {
    var t := a + b + c + d;
    assert |s| == p + |t|;
    assert forall i | p <= i < |s| :: s[i] == s[p..][i - p];
    assert forall i | 0 <= i < |d| :: t[|a| + |b| + |c| + i] == d[i];
    assert forall i | 0 <= i < |b| :: t[|a| + i] == b[i];
  }

  /** The first entry: its header, its data with the padding, and the rest. */
  lemma {:induction false} FirstEntry(c: Codec, es: seq<Entry>, archive: seq<byte>, p: nat)
    requires CodecOk(c) && es != [] && c.fits(es[0].header)
    requires p <= |archive| && archive[p..] == Stream(c, es) + Zeros(2 * BLOCK)
    ensures var h, d := es[0].header, es[0].data;
            && p + BLOCK + Rounded(|d|) <= |archive|
            && c.dec(archive[p..p + BLOCK]) == Some(h)
            && archive[p + BLOCK..p + BLOCK + Rounded(|d|)] == d + Zeros(Padding(|d|))
            && archive[p + BLOCK + Rounded(|d|)..] == Stream(c, es[1..]) + Zeros(2 * BLOCK)
  {
    var h, d := es[0].header, es[0].data;
    var pad, more := Zeros(Padding(|d|)), Stream(c, es[1..]);
    assert es == [es[0]] + es[1..];
    StreamCons(c, es[0], es[1..]);
    Regroup(c.enc(h), d, pad, more, Zeros(2 * BLOCK));
    assert c.enc(h) + d + pad + (more + Zeros(2 * BLOCK)) == c.enc(h) + (d + pad) + [] + (more + Zeros(2 * BLOCK));
    Parts(archive, p, c.enc(h), d + pad, [], more + Zeros(2 * BLOCK));
  }

  lemma Regroup(a: seq<byte>, b: seq<byte>, c: seq<byte>, d: seq<byte>, e: seq<byte>)
    ensures a + b + c + d + e == a + b + c + (d + e)
  {
  }

  /** The end marks end the walk, from the first of them or from the second, and so does the end of the archive. */
  lemma EndOfStream(c: Codec, archive: seq<byte>, e: nat, p: nat)
    requires CodecOk(c) && e <= |archive| && archive[e..] == Zeros(2 * BLOCK) && e <= p && (p - e) % BLOCK == 0
    ensures Index(c, archive, p) == []
  {
    if p + BLOCK <= |archive| {
      assert p == e || p == e + BLOCK;
      assert forall i | p <= i < p + BLOCK :: archive[i] == archive[e..][i - e] == 0;
      assert archive[p..p + BLOCK] == Zeros(BLOCK);
    }
  }

  lemma RoundedIs(a: nat) returns (n: nat)
    ensures Rounded(a) == BLOCK * n && a <= BLOCK * n < a + BLOCK
  {
    n := (a + BLOCK - 1) / BLOCK;
  }

  lemma RoundedUp(a: nat, b: nat)
    requires a <= b
    ensures Rounded(a) <= Rounded(b) && (Rounded(b) - Rounded(a)) % BLOCK == 0
  {
    var m := RoundedIs(a);
    var n := RoundedIs(b);
    assert Rounded(b) - Rounded(a) == BLOCK * (n - m);
  }

  lemma NoMore(c: Codec)
    ensures Stream(c, []) + Zeros(2 * BLOCK) == Zeros(2 * BLOCK)
  {
  }

  /** One step of the walk, and of the entries. */
  lemma {:induction false} WalkStep(c: Codec, es: seq<Entry>, archive: seq<byte>, p: nat)
    requires CodecOk(c) && es != [] && c.fits(es[0].header)
    requires p <= |archive| && archive[p..] == Stream(c, es) + Zeros(2 * BLOCK)
    ensures Index(c, archive, p)
         == [Located(es[0].header, p + BLOCK)] + Index(c, archive, p + BLOCK + Rounded(es[0].header.size))
    ensures var q := p + BLOCK + Rounded(|es[0].data|);
            q <= |archive| && archive[q..] == Stream(c, es[1..]) + Zeros(2 * BLOCK)
  {
    FirstEntry(c, es, archive, p);
  }

  /** After the last entry the walk stops, however much of the entry never came. */
  lemma {:induction false} WalkEnds(c: Codec, e: Entry, archive: seq<byte>, q: nat)
    requires CodecOk(c) && |e.data| <= e.header.size
    requires q <= |archive| && archive[q..] == Stream(c, []) + Zeros(2 * BLOCK)
    ensures Index(c, archive, q + Rounded(e.header.size) - Rounded(|e.data|)) == []
  {
    RoundedUp(|e.data|, e.header.size);
    NoMore(c);
    EndOfStream(c, archive, q, q + Rounded(e.header.size) - Rounded(|e.data|));
  }

  /** The walk over a closed archive whose entries are in step finds them all, where they are. */
  lemma {:induction false} IndexOfStream(c: Codec, es: seq<Entry>, archive: seq<byte>, p: nat)
    requires CodecOk(c) && Fit(c, es) && NoneOver(es) && InStep(es)
    requires p <= |archive| && archive[p..] == Stream(c, es) + Zeros(2 * BLOCK)
    ensures Index(c, archive, p) == Places(es, p)
    decreases |es|
  {
    if es == [] {
      NoMore(c);
      EndOfStream(c, archive, p, p);
    } else {
      WalkStep(c, es, archive, p);
      var q := p + BLOCK + Rounded(|es[0].data|);
      if |es| == 1 {
        assert es[1..] == [];
        WalkEnds(c, es[0], archive, q);
      } else {
        InStepRest(es);
        IndexOfStream(c, es[1..], archive, q);
      }
    }
  }

  lemma InStepRest(es: seq<Entry>)
    requires |es| > 1
    ensures InStep(es) <==> Fills(es[0]) && InStep(es[1..])
  {
    if Fills(es[0]) && InStep(es[1..]) {
      forall i | 0 <= i < |es| - 1
        ensures Fills(es[i])
      {
        if i > 0 { assert es[i] == es[1..][i - 1]; }
      }
    }
  }

  /** A first entry that does not take its blocks: the walk looks for the second one elsewhere. */
  lemma {:induction false} OutOfStep(c: Codec, es: seq<Entry>, archive: seq<byte>, p: nat)
    requires CodecOk(c) && |es| > 1 && c.fits(es[0].header) && !Fills(es[0])
    requires p <= |archive| && archive[p..] == Stream(c, es) + Zeros(2 * BLOCK)
    ensures Index(c, archive, p) != Places(es, p)
  {
    WalkStep(c, es, archive, p);
    var q, q' := p + BLOCK + Rounded(|es[0].data|), p + BLOCK + Rounded(es[0].header.size);
    PlacesFirst(es[1..], q);
    IndexFirst(c, archive, q');
    Tails(Index(c, archive, q'), Places(es[1..], q), Located(es[0].header, p + BLOCK));
  }

  /** The walk finds the entries where they are if and only if all but the last take the blocks they announce. */
  lemma {:induction false} IndexIff(c: Codec, es: seq<Entry>, archive: seq<byte>, p: nat)
    requires CodecOk(c) && Fit(c, es) && NoneOver(es)
    requires p <= |archive| && archive[p..] == Stream(c, es) + Zeros(2 * BLOCK)
    ensures Index(c, archive, p) == Places(es, p) <==> InStep(es)
    decreases |es|
  {
    if InStep(es) {
      IndexOfStream(c, es, archive, p);
    } else if !Fills(es[0]) {
      OutOfStep(c, es, archive, p);
    } else {
      var q := p + BLOCK + Rounded(|es[0].data|);
      InStepRest(es);
      WalkStep(c, es, archive, p);
      IndexIff(c, es[1..], archive, q);
      Tails(Index(c, archive, q), Places(es[1..], q), Located(es[0].header, p + BLOCK));
    }
  }

  lemma Tails(a: seq<Located>, b: seq<Located>, l: Located)
    ensures [l] + a == [l] + b <==> a == b
  {
    if [l] + a == [l] + b { assert a == ([l] + a)[1..] == ([l] + b)[1..] == b; }
  }

  lemma {:induction false} IndexFirst(c: Codec, archive: seq<byte>, p: nat)
    ensures Index(c, archive, p) != [] ==> Index(c, archive, p)[0].offset == p + BLOCK
  {
  }

  lemma {:induction false} PlacesFirst(es: seq<Entry>, p: nat)
    requires es != []
    ensures Places(es, p)[0] == Located(es[0].header, p + BLOCK)
  {
  }

  lemma {:induction false} PlacesRest(es: seq<Entry>, p: nat, i: nat)
    requires 0 < i < |es|
    ensures Places(es, p)[i] == Places(es[1..], p + BLOCK + Rounded(|es[0].data|))[i - 1]
  {
  }

  /** In any closed archive, each entry's data and padding are at its place, and the later entries after them. */
  lemma {:induction false} DataOfStream(c: Codec, es: seq<Entry>, archive: seq<byte>, p: nat, i: nat)
    requires CodecOk(c) && Fit(c, es)
    requires p <= |archive| && archive[p..] == Stream(c, es) + Zeros(2 * BLOCK) && i < |es|
    ensures var l, d := Places(es, p)[i], es[i].data;
            && l.header == es[i].header && l.offset + Rounded(|d|) <= |archive|
            && archive[l.offset..l.offset + Rounded(|d|)] == d + Zeros(Padding(|d|))
            && archive[l.offset + Rounded(|d|)..] == Stream(c, es[i + 1..]) + Zeros(2 * BLOCK)
    decreases i
  {
    FirstEntry(c, es, archive, p);
    if i == 0 {
      PlacesFirst(es, p);
    } else {
      DataOfStream(c, es[1..], archive, p + BLOCK + Rounded(|es[0].data|), i - 1);
      PlacesRest(es, p, i);
      assert es[1..][i..] == es[i + 1..];
    }
  }

  /** The data of an entry, with zeros up to the size its header announces. */
  function Extended(e: Entry): seq<byte>
    requires |e.data| <= e.header.size
  {
    e.data + Zeros(e.header.size - |e.data|)
  }

  /** What is after the data of entry `i` is zero as far as its header announces bytes. */
  ghost predicate Backed(es: seq<Entry>, i: nat)
    requires i < |es|
  {
    && |es[i].data| <= es[i].header.size
    && (Fills(es[i]) || (i == |es| - 1 && es[i].header.size <= Rounded(|es[i].data|) + 2 * BLOCK))
  }

  /** The index entry `l` points at the data of `e`, with zeros for what never came. */
  ghost predicate PointsAt(archive: seq<byte>, l: Located, e: Entry) {
    && |e.data| <= e.header.size && l.header == e.header && l.offset + e.header.size <= |archive|
    && archive[l.offset..l.offset + e.header.size] == Extended(e)
  }

  lemma {:induction false} PlacesPoint(c: Codec, es: seq<Entry>, archive: seq<byte>, i: nat)
    requires CodecOk(c) && Fit(c, es) && archive == Stream(c, es) + Zeros(2 * BLOCK) && i < |es| && Backed(es, i)
    ensures PointsAt(archive, Places(es, 0)[i], es[i])
  {
    assert archive[0..] == archive;
    DataOfStream(c, es, archive, 0, i);
    var o, d := Places(es, 0)[i].offset, es[i].data;
    if i == |es| - 1 {
      assert es[i + 1..] == [];
      NoMore(c);
    }
    ZerosAfter(archive, o, d, es[i].header.size, i == |es| - 1);
  }

  /** Data, its padding and perhaps the end marks, read up to `size`. */
  lemma ZerosAfter(archive: seq<byte>, o: nat, d: seq<byte>, size: nat, last: bool)
    requires |d| <= size && o + Rounded(|d|) <= |archive|
    requires archive[o..o + Rounded(|d|)] == d + Zeros(Padding(|d|))
    requires Rounded(|d|) == Rounded(size) || (last && size <= Rounded(|d|) + 2 * BLOCK)
    requires last ==> archive[o + Rounded(|d|)..] == Zeros(2 * BLOCK)
    ensures o + size <= |archive| && archive[o..o + size] == d + Zeros(size - |d|)
  {
    var e := o + Rounded(|d|);
    forall k | 0 <= k < size
      ensures o + k < |archive| && archive[o + k] == if k < |d| then d[k] else 0
    {
      if o + k < e {
        assert archive[o + k] == archive[o..e][k];
      } else {
        assert archive[o + k] == archive[e..][o + k - e];
      }
    }
    var want := d + Zeros(size - |d|);
    assert forall k | 0 <= k < size :: archive[o..o + size][k] == archive[o + k] == want[k];
  }
}
