/** Cluster chains in a table of FAT entries, as values. */
module Chains {

  /** No number occurs twice. */
  ghost predicate Distinct(a: seq<nat>) {
    forall i, j | 0 <= i < j < |a| :: a[i] != a[j]
  }

  /** No number occurs in both. */
  ghost predicate Disjoint(a: seq<nat>, b: seq<nat>) {
    forall c | c in a :: c !in b
  }

  /** `ch` is linked in order in table `t`, and its last entry is an end-of-chain mark. */
  ghost predicate IsChain(t: seq<nat>, ch: seq<nat>) {
    && ch != []
    && (forall i | 0 <= i < |ch| :: 2 <= ch[i] < |t|)
    && (forall i | 0 <= i < |ch| - 1 :: t[ch[i]] == ch[i + 1])
    && t[ch[|ch| - 1]] >= |t|
  }

  ghost predicate ChainFrom(t: seq<nat>, ch: seq<nat>, c: nat) {
    IsChain(t, ch) && ch[0] == c
  }

  /** Some entry links to `c`. */
  ghost predicate Linked(t: seq<nat>, c: nat) {
    exists d | 2 <= d < |t| :: t[d] == c
  }

  ghost predicate HasChain(t: seq<nat>, c: nat) {
    exists ch :: ChainFrom(t, ch, c)
  }

  /** No two entries link to the same cluster. */
  ghost predicate LinksDistinct(t: seq<nat>) {
    forall c, d | 2 <= c < d < |t| && 2 <= t[c] < |t| :: t[c] != t[d]
  }

  /** A FAT of disjoint, acyclic, terminated chains. */
  ghost predicate WellFormed(t: seq<nat>) {
    && (forall c {:trigger HasChain(t, c)} | 2 <= c < |t| && t[c] != 0 :: HasChain(t, c))
    && LinksDistinct(t)
  }

  ghost function FreeSet(t: seq<nat>): set<nat> {
    set c | 2 <= c < |t| && t[c] == 0
  }

  ghost function UsedSet(t: seq<nat>): set<nat> {
    set c | 2 <= c < |t| && t[c] != 0
  }

  /** The cluster numbers of a table of `n` entries. */
  ghost function Clusters(n: nat): (s: set<nat>)
    ensures forall c: nat :: c in s <==> 2 <= c < n
    ensures n >= 2 ==> |s| == n - 2
  {
    if n <= 2 then {} else Clusters(n - 1) + {n - 1}
  }

  lemma FreePlusUsed(t: seq<nat>)
    requires |t| >= 2
    ensures |FreeSet(t)| + |UsedSet(t)| == |t| - 2
  {
    assert Clusters(|t|) == FreeSet(t) + UsedSet(t);
  }

  lemma NextOf(t: seq<nat>, ch: seq<nat>, i: nat)
    requires IsChain(t, ch) && i < |ch|
    ensures if i + 1 < |ch| then t[ch[i]] == ch[i + 1] else t[ch[i]] >= |t|
  {
  }

  lemma {:induction false} ChainUnique(t: seq<nat>, a: seq<nat>, b: seq<nat>)
    requires IsChain(t, a) && IsChain(t, b) && a[0] == b[0]
    ensures a == b
    decreases |a|
  {
    NextOf(t, a, 0);
    NextOf(t, b, 0);
    if |a| > 1 && |b| > 1 {
      ChainTail(t, a, 1);
      ChainTail(t, b, 1);
      ChainUnique(t, a[1..], b[1..]);
      assert a == [a[0]] + a[1..] && b == [b[0]] + b[1..];
    }
  }

  lemma ChainTail(t: seq<nat>, ch: seq<nat>, k: nat)
    requires IsChain(t, ch) && k < |ch|
    ensures IsChain(t, ch[k..])
  {
  }

  /** A chain never meets itself. */
  lemma ChainDistinct(t: seq<nat>, ch: seq<nat>)
    requires IsChain(t, ch)
    ensures forall i, j | 0 <= i < j < |ch| :: ch[i] != ch[j]
  {
    forall i, j | 0 <= i < j < |ch|
      ensures ch[i] != ch[j]
    {
      if ch[i] == ch[j] {
        ChainTail(t, ch, i);
        ChainTail(t, ch, j);
        ChainUnique(t, ch[i..], ch[j..]);
      }
    }
  }

  lemma ChainUsed(t: seq<nat>, ch: seq<nat>, i: nat)
    requires IsChain(t, ch) && i < |ch|
    ensures t[ch[i]] != 0
  {
    if i < |ch| - 1 {
      assert t[ch[i]] == ch[i + 1];
    }
  }

  /** `assert OpenOthers();` lets the verifier look at the entries that stay. */
  ghost predicate OpenOthers(i: int := 0) {
    true
  }

  /** No entry of a cluster outside `ch` differs. */
  ghost predicate OnlyOf(t: seq<nat>, t': seq<nat>, ch: seq<nat>) {
    |t'| == |t| && forall c | 0 <= c < |t| && c !in ch :: t'[c] == t[c]
  }

  ghost predicate KeepsOthers(t: seq<nat>, t': seq<nat>, ch: seq<nat>) {
    forall i {:trigger OpenOthers(i)} :: OpenOthers(i) ==> OnlyOf(t, t', ch)
  }

  lemma KeepsSelf(t: seq<nat>, ch: seq<nat>)
    ensures KeepsOthers(t, t, ch) == true
  {
  }

  // ---- stretching ----

  /** The table after a free cluster `r` became the tail of the chain that ended in `clst`. */
  function Stretched(t: seq<nat>, clst: nat, r: nat, eoc: nat): (t': seq<nat>)
    requires 2 <= r < |t| && (clst == 0 || 2 <= clst < |t|)
    ensures |t'| == |t|
  {
    if clst == 0 then t[r := eoc] else t[r := eoc][clst := r]
  }

  /** Exactly the requested chain grows, by the new cluster at its end. */
  lemma StretchedChain(t: seq<nat>, ch: seq<nat>, r: nat, eoc: nat)
    requires IsChain(t, ch) && r in FreeSet(t) && eoc >= |t|
    ensures IsChain(Stretched(t, ch[|ch| - 1], r, eoc), ch + [r])
  {
    ChainDistinct(t, ch);
    var clst := ch[|ch| - 1];
    var t' := Stretched(t, clst, r, eoc);
    forall i | 0 <= i < |ch|
      ensures ch[i] != r
    {
      ChainUsed(t, ch, i);
    }
    var ch' := ch + [r];
    forall i | 0 <= i < |ch'| - 1
      ensures t'[ch'[i]] == ch'[i + 1]
    {
      if i < |ch| - 1 {
        assert t[ch[i]] == ch[i + 1];
      }
    }
  }

  /** Chains that do not contain `clst` stay as they are. */
  lemma StretchedOther(t: seq<nat>, clst: nat, r: nat, eoc: nat, other: seq<nat>)
    requires r in FreeSet(t) && (clst == 0 || 2 <= clst < |t|)
    requires IsChain(t, other) && clst !in other
    ensures IsChain(Stretched(t, clst, r, eoc), other)
  {
    forall i | 0 <= i < |other|
      ensures other[i] != r
    {
      ChainUsed(t, other, i);
    }
    assert forall i | 0 <= i < |other| :: other[i] in other;
  }

  lemma StretchedFree(t: seq<nat>, clst: nat, r: nat, eoc: nat)
    requires r in FreeSet(t) && eoc != 0
    requires clst == 0 || (2 <= clst < |t| && t[clst] != 0)
    ensures FreeSet(Stretched(t, clst, r, eoc)) == FreeSet(t) - {r}
    ensures |FreeSet(t)| == |FreeSet(Stretched(t, clst, r, eoc))| + 1
  {
  }

  // ---- removal ----

  datatype Removal = Removal(tab: seq<nat>, sane: bool)

  /** What `remove_chain` does from cluster `c` to an arbitrary table, cyclic ones included. */
  ghost function RemoveFrom(t: seq<nat>, c: nat): (r: Removal)
    requires 2 <= c < |t|
    ensures |r.tab| == |t|
    decreases |UsedSet(t)|
  {
    if t[c] == 0 then Removal(t, true)
    else if t[c] == 1 then Removal(t, false)
    else
      var t' := t[c := 0];
      assert UsedSet(t') == UsedSet(t) - {c};
      if t[c] >= |t| then Removal(t', true) else RemoveFrom(t', t[c])
  }

  lemma RemoveStep(t: seq<nat>, c: nat)
    requires 2 <= c < |t| && t[c] > 1
    ensures UsedSet(t[c := 0]) == UsedSet(t) - {c} && |UsedSet(t[c := 0])| == |UsedSet(t)| - 1
    ensures |FreeSet(t[c := 0])| == |FreeSet(t)| + 1 <= |t| - 2
    ensures RemoveFrom(t, c) == if t[c] >= |t| then Removal(t[c := 0], true) else RemoveFrom(t[c := 0], t[c])
  {
    assert FreeSet(t[c := 0]) == FreeSet(t) + {c};
    FreePlusUsed(t[c := 0]);
  }

  function Cleared(t: seq<nat>, ch: seq<nat>): (t': seq<nat>)
    ensures |t'| == |t|
  {
    seq(|t|, c requires 0 <= c < |t| => if c in ch then 0 else t[c])
  }

  /** On a chain it frees exactly the clusters of the chain. */
  lemma {:induction false} RemoveFromChain(t: seq<nat>, ch: seq<nat>)
    requires IsChain(t, ch)
    ensures RemoveFrom(t, ch[0]) == Removal(Cleared(t, ch), true)
    decreases |ch|
  {
    ChainDistinct(t, ch);
    var t' := t[ch[0] := 0];
    if |ch| == 1 {
      assert t' == Cleared(t, ch);
    } else {
      assert t[ch[0]] == ch[1];
      var rest := ch[1..];
      assert IsChain(t', rest);
      RemoveFromChain(t', rest);
      assert ch == [ch[0]] + rest;
      assert Cleared(t', rest) == Cleared(t, ch);
    }
  }

  /** Whatever the table holds, entries are only ever freed. */
  lemma {:induction false} RemoveFromOnlyFrees(t: seq<nat>, c: nat)
    requires 2 <= c < |t|
    ensures forall d | 0 <= d < |t| :: RemoveFrom(t, c).tab[d] == t[d] || RemoveFrom(t, c).tab[d] == 0
    decreases |UsedSet(t)|
  {
    if t[c] > 1 && t[c] < |t| {
      assert UsedSet(t[c := 0]) == UsedSet(t) - {c};
      RemoveFromOnlyFrees(t[c := 0], t[c]);
    }
  }

  /** A cluster outside a whole chain links outside it. */
  lemma LinkAvoids(t: seq<nat>, ch: seq<nat>, c: nat)
    requires LinksDistinct(t) && IsChain(t, ch) && !Linked(t, ch[0])
    requires 2 <= c < |t| && c !in ch
    ensures t[c] !in ch
  {
    forall k | 0 <= k < |ch|
      ensures ch[k] != t[c]
    {
      if k > 0 {
        assert t[ch[k - 1]] == ch[k];
        assert ch[k - 1] in ch;
      }
    }
  }

  /** A chain that starts outside a whole chain stays outside it. */
  lemma {:induction false} ChainAvoids(t: seq<nat>, ch: seq<nat>, o: seq<nat>)
    requires LinksDistinct(t) && IsChain(t, ch) && !Linked(t, ch[0])
    requires IsChain(t, o) && o[0] !in ch
    ensures forall i | 0 <= i < |o| :: o[i] !in ch
    decreases |o|
  {
    if |o| > 1 {
      assert t[o[0]] == o[1];
      LinkAvoids(t, ch, o[0]);
      ChainTail(t, o, 1);
      ChainAvoids(t, ch, o[1..]);
      assert forall i | 1 <= i < |o| :: o[i] == o[1..][i - 1];
    }
  }

  /** Chains that avoid `ch` survive its removal. */
  lemma ClearedOther(t: seq<nat>, ch: seq<nat>, o: seq<nat>)
    requires IsChain(t, o) && forall i | 0 <= i < |o| :: o[i] !in ch
    ensures IsChain(Cleared(t, ch), o)
  {
  }

  /** Removing a whole chain keeps the table well formed. */
  lemma ClearedWellFormed(t: seq<nat>, ch: seq<nat>)
    requires WellFormed(t) && IsChain(t, ch) && !Linked(t, ch[0])
    ensures WellFormed(Cleared(t, ch))
  {
    var t' := Cleared(t, ch);
    forall c | 2 <= c < |t'| && t'[c] != 0
      ensures HasChain(t', c)
    {
      assert HasChain(t, c);
      var o :| ChainFrom(t, o, c);
      ChainAvoids(t, ch, o);
      ClearedOther(t, ch, o);
      assert ChainFrom(t', o, c);
    }
  }

  lemma ClearedFree(t: seq<nat>, ch: seq<nat>)
    requires IsChain(t, ch)
    ensures FreeSet(Cleared(t, ch)) == FreeSet(t) + (set c | c in ch)
    ensures FreeSet(t) !! (set c | c in ch)
  {
    forall i | 0 <= i < |ch|
      ensures t[ch[i]] != 0
    {
      ChainUsed(t, ch, i);
    }
  }
}
