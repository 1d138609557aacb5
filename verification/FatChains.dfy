/** Cluster chains in a table of FAT entries: which clusters a chain holds, and how linking and freeing
    change the set of chains. An entry is 0 for a free cluster, the next cluster, or at least |fat| at the end. */
module FatChains {
  import opened Common

  predicate InRange(fat: seq<nat>, c: int) {
    2 <= c < |fat|
  }

  ghost predicate NoOnes(fat: seq<nat>) {
    forall c :: InRange(fat, c) ==> fat[c] != 1
  }

  /** The clusters of a file or directory in order. */
  ghost predicate IsChain(fat: seq<nat>, ch: seq<nat>) {
    && |ch| > 0
    && (forall i :: 0 <= i < |ch| ==> InRange(fat, ch[i]))
    && (forall i :: 0 <= i < |ch| - 1 ==> fat[ch[i]] == ch[i + 1])
    && fat[ch[|ch| - 1]] >= |fat|
  }

  /** The volume is a set of disjoint chains, and every cluster in use belongs to one. */
  ghost predicate Forest(fat: seq<nat>, cs: set<seq<nat>>) {
    && (forall ch :: ch in cs ==> IsChain(fat, ch))
    && (forall a, b :: a in cs && b in cs && a != b ==> Apart(a, b))
    && (forall c :: InRange(fat, c) && fat[c] != 0 ==> Owned(cs, c))
  }

  ghost predicate Apart(a: seq<nat>, b: seq<nat>) {
    forall i, j :: 0 <= i < |a| && 0 <= j < |b| ==> a[i] != b[j]
  }

  ghost predicate Owned(cs: set<seq<nat>>, c: nat) {
    exists ch :: ch in cs && c in ch
  }

  /** What the entry of the i-th cluster says. */
  lemma Link(fat: seq<nat>, ch: seq<nat>, i: nat)
    requires IsChain(fat, ch) && i < |ch|
    ensures InRange(fat, ch[i]) && fat[ch[i]] > 1
    ensures i + 1 < |ch| ==> fat[ch[i]] == ch[i + 1] && InRange(fat, ch[i + 1])
    ensures i + 1 == |ch| <==> fat[ch[i]] >= |fat|
  {
    if i + 1 < |ch| {
      assert fat[ch[i]] == ch[i + 1];
      assert InRange(fat, ch[i + 1]);
    }
  }

  /** A chain is fixed by its first cluster. */
  lemma {:induction false} ChainUnique(fat: seq<nat>, a: seq<nat>, b: seq<nat>)
    requires IsChain(fat, a) && IsChain(fat, b) && a[0] == b[0]
    ensures a == b
  {
    Link(fat, a, 0);
    Link(fat, b, 0);
    if |a| > 1 {
      ChainTail(fat, a);
      ChainTail(fat, b);
      ChainUnique(fat, a[1..], b[1..]);
      assert a == [a[0]] + a[1..] && b == [b[0]] + b[1..];
    }
  }

  lemma ChainTail(fat: seq<nat>, a: seq<nat>)
    requires IsChain(fat, a) && |a| > 1
    ensures IsChain(fat, a[1..])
  {
  }

  lemma ChainDrop(fat: seq<nat>, a: seq<nat>, i: nat)
    requires IsChain(fat, a) && i < |a|
    ensures IsChain(fat, a[i..])
  {
  }

  /** A chain never visits a cluster twice. */
  lemma ChainAcyclic(fat: seq<nat>, a: seq<nat>, i: nat, j: nat)
    requires IsChain(fat, a) && i < j < |a|
    ensures a[i] != a[j]
  {
    if a[i] == a[j] {
      ChainDrop(fat, a, i);
      ChainDrop(fat, a, j);
      ChainUnique(fat, a[i..], a[j..]);
      assert false;
    }
  }

  /** A volume of chains has no stray entry 1. */
  lemma ForestNoOnes(fat: seq<nat>, cs: set<seq<nat>>)
    requires Forest(fat, cs)
    ensures NoOnes(fat)
  {
    forall c | InRange(fat, c) ensures fat[c] != 1 {
      if fat[c] != 0 {
        assert Owned(cs, c);
        var ch :| ch in cs && c in ch;
        var i :| 0 <= i < |ch| && ch[i] == c;
        Link(fat, ch, i);
      }
    }
  }

  /** Free clusters among the first hi entries. */
  function ZerosBelow(fat: seq<nat>, hi: nat): (n: nat)
    requires hi <= |fat|
    ensures n <= if hi < 2 then 0 else hi - 2
  {
    if hi <= 2 then 0 else ZerosBelow(fat, hi - 1) + if fat[hi - 1] == 0 then 1 else 0
  }

  /** Zeros among the two reserved entries, as far as they lie below hi. */
  function ReservedZeros(fat: seq<nat>, hi: nat): (n: nat)
    requires hi <= |fat|
    ensures n <= 2
  {
    (if hi > 0 && fat[0] == 0 then 1 else 0) + if hi > 1 && fat[1] == 0 then 1 else 0
  }

  function Zeros(fat: seq<nat>): (n: nat)
    ensures n <= |fat|
  {
    ZerosBelow(fat, |fat|)
  }

  lemma FewZeros(fat: seq<nat>)
    requires |fat| >= 2
    ensures Zeros(fat) <= |fat| - 2
  {
  }

  /** Zeros among the first hi entries, the reserved ones included. */
  function AllZeros(fat: seq<nat>, hi: nat): (n: nat)
    requires hi <= |fat|
  {
    if hi == 0 then 0 else AllZeros(fat, hi - 1) + if fat[hi - 1] == 0 then 1 else 0
  }

  lemma {:induction false} AllZerosSplit(fat: seq<nat>, hi: nat)
    requires hi <= |fat|
    ensures AllZeros(fat, hi) == ZerosBelow(fat, hi) + ReservedZeros(fat, hi)
    ensures hi == |fat| >= 2 ==> AllZeros(fat, hi) == Zeros(fat) + ReservedZeros(fat, 2)
  {
    if hi > 0 {
      AllZerosSplit(fat, hi - 1);
    }
  }

  lemma {:induction false} ZerosBelowPut(fat: seq<nat>, hi: nat, c: nat, v: nat)
    requires hi <= |fat| && InRange(fat, c)
    ensures ZerosBelow(fat[c := v], hi) ==
            ZerosBelow(fat, hi) + if c < hi then (if v == 0 then 1 else 0) - (if fat[c] == 0 then 1 else 0) else 0
  {
    if hi > 2 {
      ZerosBelowPut(fat, hi - 1, c, v);
    }
  }

  /** Free clusters after one entry changes. */
  lemma ZerosPut(fat: seq<nat>, c: nat, v: nat)
    requires InRange(fat, c)
    ensures Zeros(fat[c := v]) == Zeros(fat) + (if v == 0 then 1 else 0) - (if fat[c] == 0 then 1 else 0)
  {
    ZerosBelowPut(fat, |fat|, c, v);
  }

  lemma {:induction false} ZerosFull(fat: seq<nat>, hi: nat)
    requires hi <= |fat| && forall c :: 2 <= c < hi ==> fat[c] == 0
    ensures ZerosBelow(fat, hi) == if hi < 2 then 0 else hi - 2
  {
    if hi > 2 {
      ZerosFull(fat, hi - 1);
    }
  }

  /** The first entry 1 of a cluster from c on; |fat| if there is none. */
  function FirstOne(fat: seq<nat>, c: nat): (r: nat)
    requires c <= |fat|
    ensures c <= r <= |fat| && (r < |fat| ==> fat[r] == 1)
    ensures forall d :: c <= d < r ==> fat[d] != 1
    decreases |fat| - c
  {
    if c == |fat| || fat[c] == 1 then c else FirstOne(fat, c + 1)
  }

  lemma FirstOneIs(fat: seq<nat>, c: nat, k: nat)
    requires c <= k <= |fat| && (k < |fat| ==> fat[k] == 1) && forall d :: c <= d < k ==> fat[d] != 1
    ensures FirstOne(fat, c) == k
  {
  }

  /** The zeros below hi are all there are exactly if no zero comes behind. */
  lemma {:induction false} ZerosBelowAll(fat: seq<nat>, hi: nat, top: nat)
    requires 2 <= hi <= top <= |fat|
    ensures ZerosBelow(fat, hi) <= ZerosBelow(fat, top)
    ensures ZerosBelow(fat, hi) == ZerosBelow(fat, top) <==> forall c :: hi <= c < top ==> fat[c] != 0
    decreases top
  {
    if hi < top {
      ZerosBelowAll(fat, hi, top - 1);
    }
  }

  /** All entries of s set free. */
  ghost function Zeroed(fat: seq<nat>, s: seq<nat>): (r: seq<nat>)
    ensures |r| == |fat|
    ensures forall c :: 0 <= c < |fat| ==> r[c] == if c in s then 0 else fat[c]
  {
    seq(|fat|, c requires 0 <= c < |fat| => if c in s then 0 else fat[c])
  }

  /** The clusters freed by following links from c until a free cluster, an entry 1 or an end mark; also on
      tables whose links run in a cycle, because a freed cluster stops the walk. */
  ghost function Freed(fat: seq<nat>, c: nat): (s: seq<nat>)
    decreases |fat| - Zeros(fat)
  {
    if InRange(fat, c) && fat[c] > 1 then
      ZerosPut(fat, c, 0);
      [c] + Freed(fat[c := 0], fat[c])
    else
      []
  }

  /** Where the walk from c on stops. */
  ghost function WalkEnd(fat: seq<nat>, c: nat): nat {
    var s := Freed(fat, c);
    EndOf(fat, c, s)
  }

  /** The cluster behind those walked. */
  function EndOf(fat: seq<nat>, c: nat, s: seq<nat>): nat {
    if s == [] || s[|s| - 1] >= |fat| then c else fat[s[|s| - 1]]
  }

  /** The walk meets an entry that cannot be. */
  ghost predicate MeetsOne(fat: seq<nat>, c: nat) {
    InRange(fat, WalkEnd(fat, c)) && fat[WalkEnd(fat, c)] == 1
  }

  /** The walk from start has been through these clusters, and stands at c. */
  ghost predicate OnWalk(fat: seq<nat>, start: nat, done: seq<nat>, c: nat) {
    c == EndOf(fat, start, done) && forall d :: d in done ==> InRange(fat, d) && fat[d] > 1
  }

  lemma WalkStep(f0: seq<nat>, start: nat, done: seq<nat>, c: nat)
    requires OnWalk(f0, start, done, c)
    ensures InRange(f0, c) && Zeroed(f0, done)[c] > 1 ==> OnWalk(f0, start, done + [c], Zeroed(f0, done)[c])
    ensures done == Freed(f0, start) ==> (MeetsOne(f0, start) <==> InRange(f0, c) && Zeroed(f0, done)[c] == 1)
  {
    hide Freed;
  }

  lemma FreedStart(f0: seq<nat>, start: nat)
    ensures Zeroed(f0, []) == f0 && Freed(f0, start) == [] + Freed(f0, start)
    ensures !InRange(f0, start) ==> Freed(f0, start) == [] && Zeroed(f0, Freed(f0, start)) == f0
  {
  }

  /** One step of the walk: `done` is freed so far and c comes next. */
  lemma FreedStep(f0: seq<nat>, start: nat, done: seq<nat>, f: seq<nat>, c: nat)
    requires f == Zeroed(f0, done) && Freed(f0, start) == done + Freed(f, c)
    ensures InRange(f, c) && f[c] > 1 ==>
      && f[c := 0] == Zeroed(f0, done + [c])
      && Freed(f0, start) == done + [c] + Freed(f[c := 0], f[c])
      && Zeros(f[c := 0]) == Zeros(f) + 1
    ensures !(InRange(f, c) && f[c] > 1) ==> done == Freed(f0, start) && f == Zeroed(f0, Freed(f0, start))
    ensures Zeros(f) <= |f|
  {
    if InRange(f, c) && f[c] > 1 {
      ZerosPut(f, c, 0);
      assert done + Freed(f, c) == done + [c] + Freed(f[c := 0], f[c]);
    } else {
      assert done + [] == done;
    }
  }

  /** Freeing from the first cluster of a chain frees exactly the chain. */
  lemma {:induction false} FreedChain(fat: seq<nat>, ch: seq<nat>)
    requires IsChain(fat, ch)
    ensures Freed(fat, ch[0]) == ch
    decreases |ch|
  {
    var c := ch[0];
    var after := fat[c := 0];
    if |ch| == 1 {
      assert Freed(after, fat[c]) == [];
    } else {
      forall i | 1 <= i < |ch| ensures ch[i] != c {
        ChainAcyclic(fat, ch, 0, i);
      }
      assert IsChain(after, ch[1..]);
      FreedChain(after, ch[1..]);
      assert fat[c] == ch[1] > 1;
    }
    assert ch == [c] + ch[1..];
  }

  // How the set of chains changes.

  /** Freeing the clusters of a chain takes it out of the forest and leaves the others. */
  lemma DropChain(fat: seq<nat>, cs: set<seq<nat>>, ch: seq<nat>)
    requires Forest(fat, cs) && ch in cs
    ensures Forest(Zeroed(fat, ch), cs - {ch})
  {
    var now, left := Zeroed(fat, ch), cs - {ch};
    forall other | other in left ensures IsChain(now, other) {
      assert Apart(other, ch);
      forall i | 0 <= i < |other| ensures other[i] !in ch {
      }
    }
    forall c | InRange(now, c) && now[c] != 0 ensures Owned(left, c) {
      assert Owned(cs, c);
      var other :| other in cs && c in other;
      assert other in left;
    }
  }

  /** A chain is untouched by changes of entries that were free. */
  lemma KeepsOther(fat: seq<nat>, other: seq<nat>, ch: seq<nat>, now: seq<nat>)
    requires IsChain(fat, other) && |now| == |fat|
    requires forall c :: c in ch ==> InRange(fat, c) && fat[c] == 0
    requires forall c :: InRange(fat, c) && c !in ch ==> now[c] == fat[c]
    ensures IsChain(now, other) && Apart(other, ch) && Apart(ch, other)
  {
    forall i | 0 <= i < |other| ensures other[i] !in ch && now[other[i]] == fat[other[i]] {
      Link(fat, other, i);
    }
  }

  /** Linking free clusters into a chain adds it to the forest. */
  lemma AddChain(fat: seq<nat>, cs: set<seq<nat>>, ch: seq<nat>, now: seq<nat>)
    requires Forest(fat, cs) && |now| == |fat| && IsChain(now, ch)
    requires forall c :: c in ch ==> InRange(fat, c) && fat[c] == 0
    requires forall c :: InRange(fat, c) && c !in ch ==> now[c] == fat[c]
    ensures Forest(now, cs + {ch})
  {
    hide IsChain, Apart;
    var all := cs + {ch};
    forall other | other in cs ensures IsChain(now, other) && Apart(other, ch) && Apart(ch, other) {
      KeepsOther(fat, other, ch, now);
    }
    forall c | InRange(now, c) && now[c] != 0 ensures Owned(all, c) {
      if c in ch {
        assert ch in all;
      } else {
        assert Owned(cs, c);
        var other :| other in cs && c in other;
        assert other in all;
      }
    }
  }

  /** Position of cluster c in the cyclic search that starts behind cluster `hint` of n entries. */
  function Rank(n: nat, hint: nat, c: nat): (r: int) {
    if c > hint then c - hint else c + n - hint
  }

  /** c is the first free cluster behind the hint in cyclic order. */
  ghost predicate FirstFree(fat: seq<nat>, hint: nat, c: nat) {
    && InRange(fat, c)
    && fat[c] == 0
    && forall d: nat :: InRange(fat, d) && Rank(|fat|, hint, d) < Rank(|fat|, hint, c) ==> fat[d] > 1
  }

  /** That is: nothing is free from behind the hint up to c, or from behind the hint to the end and from the start to c. */
  lemma FirstFreeIs(fat: seq<nat>, hint: nat, c: nat)
    requires hint < |fat|
    ensures FirstFree(fat, hint, c) <==>
      && 2 <= c < |fat| && fat[c] == 0
      && (c > hint ==> forall d :: 2 <= d && hint < d < c ==> fat[d] > 1)
      && (c <= hint ==> forall d :: (2 <= d < c || hint < d < |fat|) && d >= 2 ==> fat[d] > 1)
  {
  }

  /** The search from behind the hint meets an entry 1 before a free cluster. */
  ghost predicate Damaged(fat: seq<nat>, hint: nat) {
    exists c :: InRange(fat, c) && fat[c] == 1 &&
      forall d: nat :: InRange(fat, d) && Rank(|fat|, hint, d) < Rank(|fat|, hint, c) ==> fat[d] > 1
  }

  /** The search has one outcome. */
  lemma OneOutcome(fat: seq<nat>, hint: nat, c: nat)
    requires hint < |fat| && FirstFree(fat, hint, c)
    ensures !Damaged(fat, hint) && !NoneFree(fat) && forall d :: FirstFree(fat, hint, d) ==> d == c
  {
  }

  ghost predicate NoneFree(fat: seq<nat>) {
    forall c :: InRange(fat, c) ==> fat[c] != 0
  }

  /** The table after a cluster c is marked as an end and linked behind prev; prev is 0 for a new chain. */
  function Linked(fat: seq<nat>, prev: nat, c: nat, e: nat): (r: seq<nat>)
    requires InRange(fat, c) && (prev == 0 || InRange(fat, prev))
    ensures |r| == |fat|
  {
    var marked := fat[c := e];
    if prev == 0 then marked else marked[prev := c]
  }

  /** Stretching behind prev, or starting a chain when prev is 0. The result r is the cluster that follows prev,
      0 when no cluster is free, 1 when the table is damaged; a new cluster is the first free one behind the hint. Its
      entry becomes the end mark e, and that of prev the link, which is r if r fits in an entry. */
  ghost predicate Created(fat: seq<nat>, prev: nat, hint: nat, r: nat, now: seq<nat>, e: nat, link: nat) {
    if prev != 0 && (!InRange(fat, prev) || fat[prev] < 2) then
      r == 1 && now == fat
    else if prev != 0 && fat[prev] < |fat| then
      r == fat[prev] && now == fat
    else
      || (r == 0 && NoneFree(fat) && now == fat)
      || (r == 1 && Damaged(fat, if prev == 0 then hint else prev) && now == fat)
      || (r > 1 && FirstFree(fat, if prev == 0 then hint else prev, r)
          && now == if prev == 0 then fat[r := e] else fat[r := e][prev := link])
  }

  lemma NewChain(fat: seq<nat>, cs: set<seq<nat>>, c: nat, e: nat)
    requires Forest(fat, cs) && InRange(fat, c) && fat[c] == 0 && e >= |fat|
    ensures Forest(Linked(fat, 0, c, e), cs + {[c]})
  {
    AddChain(fat, cs, [c], fat[c := e]);
  }

  /** A chain followed by one formerly free cluster. */
  lemma Grown(fat: seq<nat>, ch: seq<nat>, c: nat, e: nat)
    requires IsChain(fat, ch) && InRange(fat, c) && fat[c] == 0 && e >= |fat|
    ensures IsChain(Linked(fat, ch[|ch| - 1], c, e), ch + [c])
  {
  }

  lemma Ends(fat: seq<nat>, ch: seq<nat>)
    requires IsChain(fat, ch)
    ensures |ch| > 0 && forall c :: c in ch ==> InRange(fat, c)
  {
  }

  /** Stretching a chain by a free cluster replaces it by the longer chain and leaves the others. */
  lemma StretchChain(fat: seq<nat>, cs: set<seq<nat>>, ch: seq<nat>, c: nat, e: nat)
    requires Forest(fat, cs) && ch in cs && InRange(fat, c) && fat[c] == 0 && e >= |fat|
    ensures Forest(Linked(fat, ch[|ch| - 1], c, e), cs - {ch} + {ch + [c]})
  {
    assert IsChain(fat, ch);
    hide Forest, IsChain;
    Ends(fat, ch);
    DropChain(fat, cs, ch);
    Grown(fat, ch, c, e);
    var mid, longer, now := Zeroed(fat, ch), ch + [c], Linked(fat, ch[|ch| - 1], c, e);
    forall d | d in longer ensures InRange(mid, d) && mid[d] == 0 {
      assert d == c || d in ch;
    }
    forall d | InRange(mid, d) && d !in longer ensures now[d] == mid[d] {
      assert ch[|ch| - 1] in longer && c == longer[|ch|];
    }
    AddChain(mid, cs - {ch}, longer, now);
  }

  /** The table after a chain is cut behind its k-th cluster and the rest is freed. */
  ghost function Truncated(fat: seq<nat>, ch: seq<nat>, k: nat, e: nat): (r: seq<nat>)
    requires IsChain(fat, ch) && k < |ch|
    ensures |r| == |fat|
  {
    Zeroed(fat, ch[k + 1..])[ch[k] := e]
  }

  lemma TruncatedChain(fat: seq<nat>, ch: seq<nat>, k: nat, e: nat)
    requires IsChain(fat, ch) && k < |ch| && e >= |fat|
    ensures IsChain(Truncated(fat, ch, k, e), ch[..k + 1])
  {
    var now := Truncated(fat, ch, k, e);
    forall i | 0 <= i < k ensures now[ch[i]] == ch[i + 1] {
      ChainAcyclic(fat, ch, i, k);
      forall j | k < j < |ch| ensures ch[j] != ch[i] {
        ChainAcyclic(fat, ch, i, j);
      }
    }
  }

  /** Truncation keeps the first k + 1 clusters of one chain and leaves the others. */
  lemma TruncateChain(fat: seq<nat>, cs: set<seq<nat>>, ch: seq<nat>, k: nat, e: nat)
    requires Forest(fat, cs) && ch in cs && k < |ch| && e >= |fat|
    ensures Forest(Truncated(fat, ch, k, e), cs - {ch} + {ch[..k + 1]})
  {
    var now, keep := Truncated(fat, ch, k, e), ch[..k + 1];
    TruncatedChain(fat, ch, k, e);
    DropChain(fat, cs, ch);
    assert forall c :: c in ch <==> c in keep || c in ch[k + 1..];
    hide Forest;
    AddChain(Zeroed(fat, ch), cs - {ch}, keep, now);
  }

  /** Marking the k-th cluster as the end and then freeing from the next one is truncation. */
  lemma CutTail(fat: seq<nat>, ch: seq<nat>, k: nat, e: nat)
    requires IsChain(fat, ch) && k + 1 < |ch|
    ensures InRange(fat, ch[k + 1])
    ensures
      var marked := fat[ch[k] := e];
      Zeroed(marked, Freed(marked, ch[k + 1])) == Truncated(fat, ch, k, e)
  {
    var tail, marked := ch[k + 1..], fat[ch[k] := e];
    forall i | 0 <= i < |tail| ensures tail[i] != ch[k] {
      ChainAcyclic(fat, ch, k, k + 1 + i);
    }
    ChainDrop(fat, ch, k + 1);
    FreedChain(marked, tail);
  }

  /** Allocation uses up one free cluster. */
  lemma LinkedZeros(fat: seq<nat>, prev: nat, c: nat, e: nat, link: nat)
    requires InRange(fat, c) && fat[c] == 0 && e > 0
    requires prev == 0 || (InRange(fat, prev) && fat[prev] != 0)
    ensures
      Zeros(if prev == 0 then fat[c := e] else fat[c := e][prev := link]) ==
      if prev != 0 && link == 0 then Zeros(fat) else Zeros(fat) - 1
  {
    ZerosPut(fat, c, e);
    if prev != 0 {
      ZerosPut(fat[c := e], prev, link);
    }
  }

  /** Freeing distinct clusters in use frees as many. */
  lemma {:induction false} ZeroedCount(fat: seq<nat>, s: seq<nat>)
    requires NoDup(s) && forall i :: 0 <= i < |s| ==> InRange(fat, s[i]) && fat[s[i]] != 0
    ensures Zeros(Zeroed(fat, s)) == Zeros(fat) + |s|
    decreases |s|
  {
    hide Zeros;
    if s == [] {
      assert Zeroed(fat, s) == fat;
    } else {
      var t := fat[s[0] := 0];
      ZerosPut(fat, s[0], 0);
      ZeroedCount(t, s[1..]);
      assert Zeroed(t, s[1..]) == Zeroed(fat, s);
    }
  }

  lemma ChainNonzero(fat: seq<nat>, ch: seq<nat>)
    requires ch == [] || IsChain(fat, ch)
    ensures NoDup(ch) && forall i :: 0 <= i < |ch| ==> InRange(fat, ch[i]) && fat[ch[i]] != 0
  {
    forall i | 0 <= i < |ch| ensures InRange(fat, ch[i]) && fat[ch[i]] != 0 {
      Link(fat, ch, i);
    }
    forall i, j | 0 <= i < j < |ch| ensures ch[i] != ch[j] {
      ChainAcyclic(fat, ch, i, j);
    }
  }

  lemma TruncatedCount(fat: seq<nat>, ch: seq<nat>, k: nat, e: nat)
    requires IsChain(fat, ch) && k < |ch| && e > 0
    ensures Zeros(Truncated(fat, ch, k, e)) == Zeros(fat) + |ch| - k - 1
  {
    hide Zeros;
    ChainNonzero(fat, ch);
    var tail := ch[k + 1..];
    ZeroedCount(fat, tail);
    assert ch[k] !in tail;
    ZerosPut(Zeroed(fat, tail), ch[k], e);
  }
}
