/** exFAT chains whose FAT links are written late, as values. */
module ExfatLazy {
  import opened Chains

  /** The FAT together with the chain fields of an object (`FFOBJID`). */
  datatype Lazy = Lazy(tab: seq<nat>, sclust: nat, stat: nat, nCont: nat, nFrag: nat)

  const EOC: nat := 0x7FFF_FFFF

  /** `fill_first_frag`: link the first fragment on the FAT. */
  function FillFirst(s: Lazy): Lazy
    requires s.stat == 3 ==> 2 <= s.sclust && s.sclust + s.nCont <= |s.tab|
  {
    if s.stat == 3 then s.(tab := LinkRun(s.tab, s.sclust, s.nCont), stat := 0) else s
  }

  /** `n` clusters from `cl` on, each linked to the next. */
  function LinkRun(t: seq<nat>, cl: nat, n: nat): (t': seq<nat>)
    requires cl + n <= |t|
    ensures |t'| == |t|
    decreases n
  {
    if n == 0 then t else LinkRun(t[cl := cl + 1], cl + 1, n - 1)
  }

  /** `fill_last_frag`: link the last fragment, which ends in `lcl`, and end it with `term`. */
  function FillLast(s: Lazy, lcl: nat, term: nat): Lazy
    requires s.nFrag == 0 || s.nFrag <= lcl < |s.tab|
  {
    s.(tab := LinkTail(s.tab, lcl, s.nFrag, term), nFrag := 0)
  }

  function LinkTail(t: seq<nat>, lcl: nat, n: nat, term: nat): (t': seq<nat>)
    requires n == 0 || n <= lcl < |t|
    ensures |t'| == |t|
    decreases n
  {
    if n == 0 then t
    else LinkTail(t[lcl - n + 1 := if n > 1 then lcl - n + 2 else term], lcl, n - 1, term)
  }

  /** What `create_chain` does to the chain fields and the FAT once it has chosen cluster `r`. */
  function Grow(s: Lazy, clst: nat, r: nat): Lazy
    requires clst != 0 ==> clst < |s.tab| && s.nFrag <= clst && (s.stat == 2 ==> s.sclust <= clst)
  {
    if clst == 0 then s.(stat := 2, sclust := r)
    else
      var s1 := if s.stat == 2 && r != clst + 1 then s.(nCont := clst - s.sclust, stat := 3) else s;
      if s1.stat == 2 then s1
      else if r == clst + 1 then s1.(nFrag := if s1.nFrag != 0 then s1.nFrag + 1 else 2)
      else
        var s2 := if s1.nFrag == 0 then s1.(nFrag := 1) else s1;
        FillLast(s2, clst, r).(nFrag := 1)
  }

  // ---- what the fields stand for ----

  /** First index whose link is on the FAT. */
  function Written(s: Lazy): nat {
    if s.stat == 3 then s.nCont else 0
  }

  /** Indices `lo` to `hi` of `ch` are consecutive clusters. */
  ghost predicate Consecutive(ch: seq<nat>, lo: nat, hi: nat) {
    hi <= |ch| && forall i | lo <= i < hi - 1 :: ch[i + 1] == ch[i] + 1
  }

  ghost predicate InRange(t: seq<nat>, ch: seq<nat>) {
    forall i | 0 <= i < |ch| :: 2 <= ch[i] < |t|
  }

  /** Links `lo` to `hi` of `ch` are on the FAT. */
  ghost predicate LinksOnFat(t: seq<nat>, ch: seq<nat>, lo: nat, hi: nat)
    requires InRange(t, ch)
  {
    hi < |ch| && forall i | lo <= i < hi :: t[ch[i]] == ch[i + 1]
  }

  /** The object's fields and the FAT together represent the chain `ch`. */
  ghost predicate Represents(s: Lazy, ch: seq<nat>) {
    && |ch| > 0 && ch[0] == s.sclust && InRange(s.tab, ch) && Distinct(ch)
    && (s.stat == 2 ==> s.nFrag == 0 && Consecutive(ch, 0, |ch|))
    && (s.stat != 2 ==>
          && (s.stat == 0 || s.stat == 3)
          && (s.stat == 3 ==> s.nCont + 1 < |ch| && s.nCont + 1 + s.nFrag <= |ch| && Consecutive(ch, 0, s.nCont + 1))
          && s.nFrag <= |ch|
          && Consecutive(ch, |ch| - s.nFrag, |ch|)
          && LinksOnFat(s.tab, ch, Written(s), if s.nFrag > 0 then |ch| - s.nFrag else |ch| - 1)
          && (s.nFrag == 0 ==> s.tab[ch[|ch| - 1]] >= |s.tab|))
  }

  lemma {:induction false} LinkRunAt(t: seq<nat>, cl: nat, n: nat, c: nat)
    requires cl + n <= |t| && c < |t|
    ensures LinkRun(t, cl, n)[c] == if cl <= c < cl + n then c + 1 else t[c]
    decreases n
  {
    if n > 0 {
      LinkRunAt(t[cl := cl + 1], cl + 1, n - 1, c);
    }
  }

  lemma {:induction false} LinkTailAt(t: seq<nat>, lcl: nat, n: nat, term: nat, c: nat)
    requires n <= lcl < |t| && c < |t|
    ensures LinkTail(t, lcl, n, term)[c] == if c == lcl && n > 0 then term else if lcl - n < c <= lcl then c + 1 else t[c]
    decreases n
  {
    if n > 0 {
      LinkTailAt(t[lcl - n + 1 := if n > 1 then lcl - n + 2 else term], lcl, n - 1, term, c);
    }
  }

  /** Consecutive clusters are an offset apart. */
  lemma {:induction false} ConsecutiveAt(ch: seq<nat>, lo: nat, hi: nat, i: nat, j: nat)
    requires Consecutive(ch, lo, hi) && lo <= i <= j < hi
    ensures ch[j] == ch[i] + (j - i)
    decreases j
  {
    if i < j {
      ConsecutiveAt(ch, lo, hi, i, j - 1);
    }
  }

  /** The tail fragment is the last `nFrag` cluster numbers up to the last one. */
  lemma TailBounds(s: Lazy, ch: seq<nat>)
    requires Represents(s, ch)
    ensures s.nFrag <= ch[|ch| - 1] < |s.tab|
    ensures s.stat != 2 ==> forall i | |ch| - s.nFrag <= i < |ch| :: ch[i] == ch[|ch| - 1] - (|ch| - 1 - i)
  {
    if s.stat != 2 && s.nFrag > 0 {
      forall i | |ch| - s.nFrag <= i < |ch|
        ensures ch[i] == ch[|ch| - 1] - (|ch| - 1 - i)
      {
        ConsecutiveAt(ch, |ch| - s.nFrag, |ch|, i, |ch| - 1);
      }
      assert ch[|ch| - s.nFrag] >= 2;
    }
  }

  /** Linking the tail fragment links exactly the clusters of the fragment. */
  lemma LinkTailOf(s: Lazy, ch: seq<nat>, term: nat, i: nat)
    requires Represents(s, ch) && s.stat != 2 && s.nFrag > 0 && i < |ch|
    ensures s.nFrag <= ch[|ch| - 1] < |s.tab|
    ensures LinkTail(s.tab, ch[|ch| - 1], s.nFrag, term)[ch[i]] ==
            if i == |ch| - 1 then term else if i >= |ch| - s.nFrag then ch[i + 1] else s.tab[ch[i]]
  {
    TailBounds(s, ch);
    var lcl := ch[|ch| - 1];
    LinkTailAt(s.tab, lcl, s.nFrag, term, ch[i]);
    if i < |ch| - s.nFrag && lcl - s.nFrag < ch[i] <= lcl {
      ConsecutiveAt(ch, |ch| - s.nFrag, |ch|, |ch| - 1 - (lcl - ch[i]), |ch| - 1);
    }
  }

  /** Writing the last fragment with an end mark keeps the representation. */
  lemma FillLastRepresents(s: Lazy, ch: seq<nat>)
    requires Represents(s, ch) && |s.tab| <= EOC
    ensures s.nFrag <= ch[|ch| - 1] < |s.tab|
    ensures Represents(FillLast(s, ch[|ch| - 1], EOC), ch)
  {
    TailBounds(s, ch);
    var s' := FillLast(s, ch[|ch| - 1], EOC);
    if s.stat != 2 && s.nFrag > 0 {
      forall i | 0 <= i < |ch|
        ensures s'.tab[ch[i]] ==
                if i == |ch| - 1 then EOC else if i >= |ch| - s.nFrag then ch[i + 1] else s.tab[ch[i]]
      {
        LinkTailOf(s, ch, EOC, i);
      }
      LinkTailOf(s, ch, EOC, |ch| - 1);
    }
  }

  /** Writing the first fragment keeps the representation. */
  lemma FillFirstRepresents(s: Lazy, ch: seq<nat>)
    requires Represents(s, ch)
    ensures s.stat == 3 ==> 2 <= s.sclust && s.sclust + s.nCont <= |s.tab|
    ensures Represents(FillFirst(s), ch) && FillFirst(s).nFrag == s.nFrag && FillFirst(s).stat in {0, 2}
  {
    if s.stat == 3 {
      ConsecutiveAt(ch, 0, s.nCont + 1, 0, s.nCont);
      var t' := LinkRun(s.tab, s.sclust, s.nCont);
      forall i | 0 <= i < |ch|
        ensures t'[ch[i]] == if i < s.nCont then ch[i + 1] else s.tab[ch[i]]
      {
        LinkRunOf(s, ch, i);
      }
      LinkRunOf(s, ch, |ch| - 1);
    }
  }

  /** Linking the first fragment links exactly the clusters of the fragment but its last. */
  lemma LinkRunOf(s: Lazy, ch: seq<nat>, i: nat)
    requires Represents(s, ch) && s.stat == 3 && i < |ch|
    ensures s.sclust + s.nCont <= |s.tab|
    ensures LinkRun(s.tab, s.sclust, s.nCont)[ch[i]] == if i < s.nCont then ch[i + 1] else s.tab[ch[i]]
  {
    ConsecutiveAt(ch, 0, s.nCont + 1, 0, s.nCont);
    LinkRunAt(s.tab, s.sclust, s.nCont, ch[i]);
    if i < s.nCont {
      ConsecutiveAt(ch, 0, s.nCont + 1, 0, i);
    } else if s.sclust <= ch[i] < s.sclust + s.nCont {
      var k := ch[i] - s.sclust;
      ConsecutiveAt(ch, 0, s.nCont + 1, 0, k);
    }
  }

  // ---- stretching ----

  lemma TailMember(s: Lazy, ch: seq<nat>, c: nat)
    requires Represents(s, ch) && s.nFrag > 0 && ch[|ch| - 1] - s.nFrag < c <= ch[|ch| - 1]
    ensures c in ch
  {
    TailBounds(s, ch);
    assert ch[|ch| - 1 - (ch[|ch| - 1] - c)] == c;
  }

  lemma HeadMember(s: Lazy, ch: seq<nat>, c: nat)
    requires Represents(s, ch) && s.stat == 3 && s.sclust <= c < s.sclust + s.nCont
    ensures c in ch
  {
    ConsecutiveAt(ch, 0, s.nCont + 1, 0, c - s.sclust);
    assert ch[c - s.sclust] == c;
  }

  /** What the entries of other clusters are does not matter. */
  lemma RepresentsKept(s: Lazy, t: seq<nat>, ch: seq<nat>)
    requires Represents(s, ch) && |t| == |s.tab| && forall i | 0 <= i < |ch| :: t[ch[i]] == s.tab[ch[i]]
    ensures Represents(s.(tab := t), ch)
  {
  }

  /** Writing the last fragment touches entries of the chain only. */
  lemma FillLastKeeps(s: Lazy, ch: seq<nat>, term: nat)
    requires Represents(s, ch)
    ensures s.nFrag <= ch[|ch| - 1] < |s.tab|
    ensures KeepsOthers(s.tab, FillLast(s, ch[|ch| - 1], term).tab, ch) == true
  {
    TailBounds(s, ch);
    var last := ch[|ch| - 1];
    forall c | 0 <= c < |s.tab| && c !in ch
      ensures LinkTail(s.tab, last, s.nFrag, term)[c] == s.tab[c]
    {
      LinkTailAt(s.tab, last, s.nFrag, term, c);
      if last - s.nFrag < c <= last { TailMember(s, ch, c); }
    }
  }

  /** Writing the first fragment touches entries of the chain only. */
  lemma FillFirstKeeps(s: Lazy, ch: seq<nat>)
    requires Represents(s, ch)
    ensures s.stat == 3 ==> 2 <= s.sclust && s.sclust + s.nCont <= |s.tab|
    ensures KeepsOthers(s.tab, FillFirst(s).tab, ch) == true
  {
    FillFirstRepresents(s, ch);
    if s.stat == 3 {
      forall c | 0 <= c < |s.tab| && c !in ch
        ensures LinkRun(s.tab, s.sclust, s.nCont)[c] == s.tab[c]
      {
        LinkRunAt(s.tab, s.sclust, s.nCont, c);
        if s.sclust <= c < s.sclust + s.nCont {
          HeadMember(s, ch, c);
        }
      }
    }
  }

  ghost predicate Fresh(s: Lazy, ch: seq<nat>, r: nat) {
    2 <= r < |s.tab| && r !in ch
  }

  lemma ConsecutiveAppend(ch: seq<nat>, r: nat, lo: nat, hi: nat)
    requires Consecutive(ch, lo, hi)
    ensures Consecutive(ch + [r], lo, hi)
  {
  }

  lemma DistinctAppend(ch: seq<nat>, r: nat)
    requires Distinct(ch) && r !in ch
    ensures Distinct(ch + [r])
  {
  }

  /** `create_chain` may be applied to the last cluster. */
  lemma GrowReady(s: Lazy, ch: seq<nat>)
    requires Represents(s, ch)
    ensures var clst := ch[|ch| - 1];
            clst != 0 && clst < |s.tab| && s.nFrag <= clst && (s.stat == 2 ==> s.sclust + (|ch| - 1) == clst)
  {
    TailBounds(s, ch);
    if s.stat == 2 {
      ConsecutiveAt(ch, 0, |ch|, 0, |ch| - 1);
    }
  }

  /** A contiguous chain that stays contiguous: nothing is written. */
  lemma GrowContiguous(s: Lazy, ch: seq<nat>, r: nat)
    requires Represents(s, ch) && Fresh(s, ch, r) && s.stat == 2 && r == ch[|ch| - 1] + 1
    ensures Represents(s, ch + [r])
  {
    DistinctAppend(ch, r);
  }

  /** A contiguous chain gets its second fragment: its first one is remembered, not written. */
  lemma GrowFragments(s: Lazy, ch: seq<nat>, r: nat)
    requires Represents(s, ch) && Fresh(s, ch, r) && s.stat == 2
    ensures Represents(s.(tab := s.tab[ch[|ch| - 1] := r], nCont := |ch| - 1, stat := 3, nFrag := 1), ch + [r])
  {
    DistinctAppend(ch, r);
    assert Consecutive(ch + [r], 0, |ch|);
  }

  /** The last fragment gets longer: its links are still not written. */
  lemma GrowTail(s: Lazy, ch: seq<nat>, r: nat)
    requires Represents(s, ch) && Fresh(s, ch, r) && s.stat != 2 && r == ch[|ch| - 1] + 1
    ensures Represents(s.(nFrag := if s.nFrag != 0 then s.nFrag + 1 else 2), ch + [r])
  {
    DistinctAppend(ch, r);
    if s.stat == 3 { ConsecutiveAppend(ch, r, 0, s.nCont + 1); }
    var hi := if s.nFrag > 0 then |ch| - s.nFrag else |ch| - 1;
    LinksAppend(s.tab, ch, r, Written(s), hi);
    ConsecutiveNext(ch, r, hi);
  }

  lemma LinksAppend(t: seq<nat>, ch: seq<nat>, r: nat, lo: nat, hi: nat)
    requires InRange(t, ch) && 2 <= r < |t| && LinksOnFat(t, ch, lo, hi)
    ensures InRange(t, ch + [r]) && LinksOnFat(t, ch + [r], lo, hi)
  {
  }

  lemma ConsecutiveNext(ch: seq<nat>, r: nat, lo: nat)
    requires lo < |ch| && Consecutive(ch, lo, |ch|) && r == ch[|ch| - 1] + 1
    ensures Consecutive(ch + [r], lo, |ch| + 1)
  {
  }

  /** A new fragment: the last one is written and linked to it. */
  lemma GrowNewFragment(s: Lazy, ch: seq<nat>, r: nat)
    requires Represents(s, ch) && Fresh(s, ch, r) && s.stat != 2
    ensures var n := if s.nFrag == 0 then 1 else s.nFrag;
            && n <= ch[|ch| - 1] < |s.tab|
            && Represents(s.(tab := LinkTail(s.tab, ch[|ch| - 1], n, r), nFrag := 1), ch + [r])
  {
    TailBounds(s, ch);
    var n := if s.nFrag == 0 then 1 else s.nFrag;
    var ch' := ch + [r];
    var t' := LinkTail(s.tab, ch[|ch| - 1], n, r);
    assert LinksOnFat(t', ch', Written(s), |ch|) by {
      forall i | Written(s) <= i < |ch|
        ensures t'[ch'[i]] == ch'[i + 1]
      {
        NewFragmentLink(s, ch, r, i);
      }
    }
    DistinctAppend(ch, r);
    if s.stat == 3 { ConsecutiveAppend(ch, r, 0, s.nCont + 1); }
  }

  lemma NewFragmentLink(s: Lazy, ch: seq<nat>, r: nat, i: nat)
    requires Represents(s, ch) && Fresh(s, ch, r) && s.stat != 2 && Written(s) <= i < |ch|
    ensures var n := if s.nFrag == 0 then 1 else s.nFrag;
            && n <= ch[|ch| - 1] < |s.tab|
            && LinkTail(s.tab, ch[|ch| - 1], n, r)[ch[i]] == (ch + [r])[i + 1]
  {
    TailBounds(s, ch);
    if s.nFrag == 0 {
      LinkTailAt(s.tab, ch[|ch| - 1], 1, r, ch[i]);
    } else {
      LinkTailOf(s, ch, r, i);
    }
  }

  /** `create_chain` extends the represented chain by the allocated cluster. */
  lemma GrowRepresents(s: Lazy, ch: seq<nat>, r: nat)
    requires Represents(s, ch) && Fresh(s, ch, r)
    ensures var clst := ch[|ch| - 1];
            clst != 0 && clst < |s.tab| && s.nFrag <= clst && (s.stat == 2 ==> s.sclust <= clst)
    ensures Represents(Grow(s, ch[|ch| - 1], r), ch + [r])
  {
    var clst := ch[|ch| - 1];
    GrowReady(s, ch);
    if s.stat == 2 {
      if r == clst + 1 { GrowContiguous(s, ch, r); } else { GrowFragments(s, ch, r); }
    } else {
      if r == clst + 1 { GrowTail(s, ch, r); } else { GrowNewFragment(s, ch, r); }
    }
  }

  /** And it touches no entry of a cluster outside the chain. */
  lemma GrowKeeps(s: Lazy, ch: seq<nat>, r: nat)
    requires Represents(s, ch) && Fresh(s, ch, r)
    ensures var clst := ch[|ch| - 1];
            clst != 0 && clst < |s.tab| && s.nFrag <= clst && (s.stat == 2 ==> s.sclust <= clst)
    ensures KeepsOthers(s.tab, Grow(s, ch[|ch| - 1], r).tab, ch) == true
  {
    GrowReady(s, ch);
    var clst := ch[|ch| - 1];
    if s.stat == 2 && r != clst + 1 {
      LinkOneKeeps(s.tab, ch, clst, r);
    } else if s.stat != 2 && r != clst + 1 && s.nFrag == 0 {
      LinkOneKeeps(s.tab, ch, clst, r);
    } else if s.stat != 2 && r != clst + 1 {
      FillLastKeeps(s, ch, r);
    }
  }

  lemma LinkOneKeeps(t: seq<nat>, ch: seq<nat>, clst: nat, r: nat)
    requires 1 <= clst < |t| && clst in ch
    ensures KeepsOthers(t, LinkTail(t, clst, 1, r), ch) == true
  {
    forall c | 0 <= c < |t| && c !in ch
      ensures LinkTail(t, clst, 1, r)[c] == t[c]
    {
      LinkTailAt(t, clst, 1, r, c);
    }
  }

  lemma GrowFirst(s: Lazy, r: nat)
    requires s.nFrag == 0 && 2 <= r < |s.tab|
    ensures Represents(Grow(s, 0, r), [r])
  {
  }

  // ---- whole runs ----

  /** What happens to an open file: its chain is stretched, it is repositioned, it is synchronised. */
  datatype Event = Stretch(r: nat) | Seek | Sync

  /** The chain that a run of events allocates, after `ch`. */
  function Allocated(ch: seq<nat>, es: seq<Event>): seq<nat>
    decreases |es|
  {
    if es == [] then ch
    else Allocated(if es[0].Stretch? then ch + [es[0].r] else ch, es[1..])
  }

  /** Every stretch takes a cluster that the chain does not have yet. */
  ghost predicate TakesFresh(n: nat, ch: seq<nat>, es: seq<Event>)
    decreases |es|
  {
    es == [] ||
    if es[0].Stretch? then 2 <= es[0].r < n && es[0].r !in ch && TakesFresh(n, ch + [es[0].r], es[1..])
    else TakesFresh(n, ch, es[1..])
  }

  /** One event, with the file positioned on the last cluster of the chain. */
  ghost function Step(s: Lazy, ch: seq<nat>, e: Event): Lazy
    requires Represents(s, ch) && |s.tab| <= EOC && (e.Stretch? ==> Fresh(s, ch, e.r))
  {
    FillLastRepresents(s, ch);
    match e
    case Stretch(r) =>
      GrowRepresents(s, ch, r);
      Grow(s, ch[|ch| - 1], r)
    case Seek => FillLast(s, ch[|ch| - 1], EOC)
    case Sync =>
      FillFirstRepresents(s, ch);
      FillLastRepresents(FillFirst(s), ch);
      FillLast(FillFirst(s), ch[|ch| - 1], EOC)
  }

  lemma StepRepresents(s: Lazy, ch: seq<nat>, e: Event)
    requires Represents(s, ch) && |s.tab| <= EOC && (e.Stretch? ==> Fresh(s, ch, e.r))
    ensures Represents(Step(s, ch, e), if e.Stretch? then ch + [e.r] else ch)
    ensures |Step(s, ch, e).tab| == |s.tab|
  {
    match e
    case Stretch(r) => GrowRepresents(s, ch, r);
    case Seek => FillLastRepresents(s, ch);
    case Sync =>
      FillFirstRepresents(s, ch);
      FillLastRepresents(FillFirst(s), ch);
  }

  ghost function Run(s: Lazy, ch: seq<nat>, es: seq<Event>): Lazy
    requires Represents(s, ch) && |s.tab| <= EOC && TakesFresh(|s.tab|, ch, es)
    decreases |es|
  {
    if es == [] then s
    else
      StepRepresents(s, ch, es[0]);
      Run(Step(s, ch, es[0]), if es[0].Stretch? then ch + [es[0].r] else ch, es[1..])
  }

  /** After any run the fields represent exactly the clusters allocated, in order. */
  lemma {:induction false} RunRepresents(s: Lazy, ch: seq<nat>, es: seq<Event>)
    requires Represents(s, ch) && |s.tab| <= EOC && TakesFresh(|s.tab|, ch, es)
    ensures Represents(Run(s, ch, es), Allocated(ch, es))
    ensures |Run(s, ch, es).tab| == |s.tab|
    decreases |es|
  {
    if es != [] {
      StepRepresents(s, ch, es[0]);
      RunRepresents(Step(s, ch, es[0]), if es[0].Stretch? then ch + [es[0].r] else ch, es[1..]);
    }
  }

  /** Once settled, a chain that is not contiguous is on the FAT as a plain chain. */
  lemma SettledChain(s: Lazy, ch: seq<nat>)
    requires Represents(s, ch) && s.stat == 0 && s.nFrag == 0
    ensures IsChain(s.tab, ch)
  {
  }

  /**
   The chain seen on the volume after a run and a final synchronisation: either the object says that
   it is contiguous and the clusters are consecutive, or the FAT holds exactly the allocated chain.
   */
  lemma RunThenSync(s: Lazy, r: nat, es: seq<Event>)
    requires s.nFrag == 0 && 2 <= r < |s.tab| <= EOC && TakesFresh(|s.tab|, [r], es)
    ensures Represents(Grow(s, 0, r), [r]) && |Grow(s, 0, r).tab| == |s.tab|
    ensures var e := Run(Grow(s, 0, r), [r], es);
            var ch := Allocated([r], es);
            && Represents(e, ch) && |e.tab| == |s.tab|
            && var f := Step(e, ch, Sync);
               if f.stat == 2 then f.sclust == r && Consecutive(ch, 0, |ch|) else IsChain(f.tab, ch)
  {
    GrowFirst(s, r);
    var s1 := Grow(s, 0, r);
    RunRepresents(s1, [r], es);
    var e := Run(s1, [r], es);
    var ch := Allocated([r], es);
    AllocatedHead([r], es);
    StepRepresents(e, ch, Sync);
    FillFirstRepresents(e, ch);
    var f := Step(e, ch, Sync);
    if f.stat != 2 { SettledChain(f, ch); }
  }

  lemma {:induction false} AllocatedHead(ch: seq<nat>, es: seq<Event>)
    requires |ch| > 0
    ensures |Allocated(ch, es)| > 0 && Allocated(ch, es)[0] == ch[0]
    decreases |es|
  {
    if es != [] {
      AllocatedHead(if es[0].Stretch? then ch + [es[0].r] else ch, es[1..]);
    }
  }
}
