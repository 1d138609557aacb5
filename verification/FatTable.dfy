/** A directory as a table of 32-byte entries, and the finite map from names to entries that it stands for. */
module FatTable {
  import opened Bytes
  import opened Common
  import opened FatEntry

  const NAME := 11     // length of a name
  const ENTRY := 32
  const ATTRIBUTE := 11
  const DELETED := 0xE5

  type Entry = e: seq<byte> | |e| == ENTRY witness seq(ENTRY, _ => 0)

  /** The volume label is not a name. */
  predicate IsLabel(e: Entry) {
    e[ATTRIBUTE] as int / 8 % 2 == 1
  }

  /** What names look like: neither the end of the table nor a deleted entry. */
  predicate IsName(n: seq<byte>) {
    |n| == NAME && n[0] != 0 && n[0] != DELETED
  }

  predicate Matches(e: Entry, n: seq<byte>) {
    !IsLabel(e) && e[..NAME] == n
  }

  predicate Blank(e: Entry) {
    e[0] == 0 || e[0] == DELETED
  }

  /** Position of name n from entry i on, as the search finds it: before the first entry that was never used. */
  function Find(t: seq<Entry>, n: seq<byte>, i: nat): (k: nat)
    requires i <= |t|
    ensures i <= k <= |t|
    decreases |t| - i
  {
    if i == |t| || t[i][0] == 0 then |t| else if Matches(t[i], n) then i else Find(t, n, i + 1)
  }

  lemma FindStep(t: seq<Entry>, n: seq<byte>, i: nat)
    requires i < |t|
    ensures Find(t, n, |t|) == |t|
    ensures t[i][0] == 0 ==> Find(t, n, i) == |t|
    ensures t[i][0] != 0 && Matches(t[i], n) ==> Find(t, n, i) == i
    ensures t[i][0] != 0 && !Matches(t[i], n) ==> Find(t, n, i) == Find(t, n, i + 1)
  {
  }

  /** The marks in the bytes of an entry: 0 and 0xE5 in the first byte, the volume label in bit 3 of byte 11, the name in
      the first 11 bytes, which is all that a new entry holds. */
  lemma EntryFormat(e: Entry, n: seq<byte>)
    requires |n| == 11
    ensures Blank(e) <==> e[0] as int in {0, 0xE5}
    ensures Matches(e, n) <==> e[..11] == n && e[11] as int / 8 % 2 == 0
    ensures IsName(n) <==> n[0] as int !in {0, 0xE5}
    ensures |NewEntry(n)| == 32 && NewEntry(n)[..11] == n && forall i :: 11 <= i < 32 ==> NewEntry(n)[i] == 0
    ensures Removed(e)[0] as int == 0xE5 && Removed(e)[1..] == e[1..]
  {
    assert NewEntry(n)[..11] == n;
  }

  /** Position of the first blank entry from i on. */
  function FirstBlank(t: seq<Entry>, i: nat): (k: nat)
    requires i <= |t|
    ensures i <= k <= |t|
    ensures k < |t| ==> Blank(t[k])
    ensures forall j :: i <= j < k ==> !Blank(t[j])
    decreases |t| - i
  {
    if i == |t| || Blank(t[i]) then i else FirstBlank(t, i + 1)
  }

  /** The map: what the directory says of a name. */
  function Lookup(t: seq<Entry>, n: seq<byte>): Option<Entry> {
    var k := Find(t, n, 0);
    if k < |t| then Some(t[k]) else None
  }

  /** Entries never used come last. */
  ghost predicate ZeroTail(t: seq<Entry>) {
    forall i, j :: 0 <= i < j < |t| && t[i][0] == 0 ==> t[j][0] == 0
  }

  /** No name is there twice. */
  ghost predicate Unique(t: seq<Entry>) {
    forall i, j :: 0 <= i < j < |t| && !Blank(t[i]) && !Blank(t[j]) && !IsLabel(t[i]) && !IsLabel(t[j]) ==>
      t[i][..NAME] != t[j][..NAME]
  }

  ghost predicate TableOk(t: seq<Entry>) {
    ZeroTail(t) && Unique(t)
  }

  /** What the search finds, without the search. */
  lemma {:induction false} FindIs(t: seq<Entry>, n: seq<byte>, i: nat)
    requires i <= |t| && ZeroTail(t) && IsName(n)
    ensures
      var k := Find(t, n, i);
      && (k < |t| ==> Matches(t[k], n))
      && (forall j :: i <= j < k ==> !Matches(t[j], n))
    decreases |t| - i
  {
    if i < |t| && t[i][0] != 0 && !Matches(t[i], n) {
      FindIs(t, n, i + 1);
    } else if i < |t| && t[i][0] == 0 {
      forall j | i <= j < |t| ensures !Matches(t[j], n) {
        assert t[j][0] == 0;
        assert t[j][..NAME][0] == t[j][0];
      }
    }
  }

  /** An entry with the name is what the search finds. */
  lemma FindsOnly(t: seq<Entry>, n: seq<byte>, k: nat)
    requires TableOk(t) && IsName(n) && k < |t| && Matches(t[k], n)
    ensures Find(t, n, 0) == k
  {
    FindIs(t, n, 0);
    var f := Find(t, n, 0);
    assert t[k][..NAME][0] == t[k][0];
    if f < |t| {
      assert t[f][..NAME][0] == t[f][0];
    }
  }

  lemma FindsNone(t: seq<Entry>, n: seq<byte>)
    requires TableOk(t) && IsName(n)
    ensures Find(t, n, 0) == |t| <==> forall k :: 0 <= k < |t| ==> !Matches(t[k], n)
  {
    FindIs(t, n, 0);
  }

  // Adding and removing.

  function NewEntry(n: seq<byte>): Entry
    requires |n| == NAME
  {
    n + seq(ENTRY - NAME, _ => 0)
  }

  /** The table with entries that were never used behind it, n entries in all. */
  function Stretched(t: seq<Entry>, n: nat): (r: seq<Entry>)
    ensures |r| == if n <= |t| then |t| else n
  {
    if n <= |t| then t else t + seq(n - |t|, _ => seq(ENTRY, _ => 0))
  }

  /** r is the table of a map with name n added to that of t. */
  ghost predicate Adds(t: seq<Entry>, n: seq<byte>, r: seq<Entry>)
    requires |n| == NAME
  {
    && TableOk(r)
    && Lookup(r, n) == Some(NewEntry(n))
    && forall m :: IsName(m) && m != n ==> Lookup(r, m) == Lookup(t, m)
  }

  /** r is the table of a map with name n deleted from that of t. */
  ghost predicate Deletes(t: seq<Entry>, n: seq<byte>, r: seq<Entry>) {
    && TableOk(r)
    && Lookup(r, n) == None
    && forall m :: IsName(m) && m != n ==> Lookup(r, m) == Lookup(t, m)
  }

  lemma StretchKeeps(t: seq<Entry>, size: nat)
    requires TableOk(t)
    ensures TableOk(Stretched(t, size))
    ensures forall n :: IsName(n) ==> Lookup(Stretched(t, size), n) == Lookup(t, n)
  {
    var r := Stretched(t, size);
    forall n | IsName(n) ensures Lookup(r, n) == Lookup(t, n) {
      FindsNone(t, n);
      FindsNone(r, n);
      var k := Find(t, n, 0);
      FindIs(t, n, 0);
      if k < |t| {
        assert Matches(r[k], n);
        FindsOnly(r, n, k);
      } else {
        forall j | 0 <= j < |r| ensures !Matches(r[j], n) {
          assert j >= |t| ==> r[j][..NAME][0] == 0;
        }
      }
    }
  }

  /** Changing entry k from or to a blank one changes the map at its name only. */
  lemma OthersStay(t: seq<Entry>, r: seq<Entry>, k: nat, n: seq<byte>)
    requires TableOk(t) && TableOk(r) && k < |t| == |r| && r == t[k := r[k]] && IsName(n)
    requires !Matches(t[k], n) && !Matches(r[k], n)
    ensures Lookup(r, n) == Lookup(t, n)
  {
    FindsNone(t, n);
    FindsNone(r, n);
    FindIs(t, n, 0);
    var f := Find(t, n, 0);
    if f < |t| {
      assert r[f] == t[f];
      FindsOnly(r, n, f);
    } else {
      assert forall j :: 0 <= j < |r| && j != k ==> r[j] == t[j];
    }
  }

  /** With a new name in its first blank entry the table is still in order. */
  lemma AddedOk(t: seq<Entry>, n: seq<byte>)
    requires TableOk(t) && IsName(n) && Lookup(t, n) == None && FirstBlank(t, 0) < |t|
    ensures Matches(NewEntry(n), n) && TableOk(t[FirstBlank(t, 0) := NewEntry(n)])
  {
    FindsNone(t, n);
    assert NewEntry(n)[..NAME] == n && !IsLabel(NewEntry(n));
  }

  /** Registering a new name in the first blank entry adds it, and keeps all others. */
  lemma RegisterAdds(t: seq<Entry>, n: seq<byte>)
    requires TableOk(t) && IsName(n) && Lookup(t, n) == None && FirstBlank(t, 0) < |t|
    ensures Adds(t, n, t[FirstBlank(t, 0) := NewEntry(n)])
  {
    var k := FirstBlank(t, 0);
    var e := NewEntry(n);
    var r := t[k := e];
    AddedOk(t, n);
    FindsOnly(r, n, k);
    hide TableOk, Lookup, NewEntry, FirstBlank;
    forall m | IsName(m) && m != n ensures Lookup(r, m) == Lookup(t, m) {
      assert t[k][..NAME][0] == t[k][0];
      OthersStay(t, r, k, m);
    }
  }

  /** The table with d stored at the front of entry i. */
  function Changed(t: seq<Entry>, i: nat, d: seq<byte>): (r: seq<Entry>)
    requires |d| <= ENTRY
    ensures |r| == |t|
  {
    if i < |t| then t[i := d + t[i][|d|..]] else t
  }

  lemma ChangedIs(t: seq<Entry>, i: nat, n: seq<byte>)
    requires |n| == NAME && i < |t|
    ensures Changed(t, i, NewEntry(n)) == t[i := NewEntry(n)]
    ensures Changed(t, i, [DELETED]) == t[i := Removed(t[i])]
  {
    var e := NewEntry(n);
    assert |e| == ENTRY && t[i][|e|..] == [] && e + [] == e;
    assert [DELETED] + t[i][1..] == Removed(t[i]);
  }

  /** The entry after its removal. */
  function Removed(e: Entry): Entry {
    e[0 := DELETED]
  }

  /** Removing the entry of a name deletes the name, and keeps all others. */
  lemma RemoveDeletes(t: seq<Entry>, n: seq<byte>)
    requires TableOk(t) && IsName(n) && Lookup(t, n) != None
    ensures
      var k := Find(t, n, 0);
      Deletes(t, n, t[k := Removed(t[k])])
  {
    var k := Find(t, n, 0);
    FindIs(t, n, 0);
    var r := t[k := Removed(t[k])];
    assert t[k][..NAME][0] == t[k][0] && r[k][..NAME][0] == r[k][0];
    assert TableOk(r);
    FindsNone(r, n);
    forall j | 0 <= j < |t| && Matches(t[j], n) ensures j == k {
      FindsOnly(t, n, j);
    }
    forall m | IsName(m) && m != n ensures Lookup(r, m) == Lookup(t, m) {
      OthersStay(t, r, k, m);
    }
  }

  lemma FirstBlankIs(t: seq<Entry>, k: nat)
    requires k <= |t| && (forall j :: 0 <= j < k ==> !Blank(t[j])) && (k < |t| ==> Blank(t[k]))
    ensures FirstBlank(t, 0) == k
  {
  }

  /** Registering in the first blank entry adds the name, also when the table has to be stretched for it. */
  lemma RegisterStretched(t: seq<Entry>, size: nat, n: seq<byte>)
    requires TableOk(t) && IsName(n) && Lookup(t, n) == None && FirstBlank(t, 0) < |Stretched(t, size)|
    ensures Adds(t, n, Stretched(t, size)[FirstBlank(t, 0) := NewEntry(n)])
  {
    var k, wide := FirstBlank(t, 0), Stretched(t, size);
    StretchKeeps(t, size);
    FirstBlankIs(wide, k);
    RegisterAdds(wide, n);
  }

  /** An entry rewritten by f_sync is found under its name as before, and so are all others. */
  lemma {:induction false} RewriteKeeps(t: seq<Entry>, k: nat, e: Entry, size: nat, clust: nat, time: nat, n: seq<byte>,
                                        i: nat)
    requires k < |t| && Rewritten(t[k], e, size, clust, time) && i <= |t|
    ensures Find(t[k := e], n, i) == Find(t, n, i)
    ensures TableOk(t) ==> TableOk(t[k := e])
    decreases |t| - i
  {
    hide Rewritten;
    SameName(t[k], e, size, clust, time);
    if i < |t| {
      RewriteKeeps(t, k, e, size, clust, time, n, i + 1);
    }
  }

  lemma SameName(e: Entry, r: Entry, size: nat, clust: nat, time: nat)
    requires Rewritten(e, r, size, clust, time)
    ensures r[..NAME] == e[..NAME] && r[0] == e[0] && (IsLabel(r) <==> IsLabel(e))
  {
  }

  /** Everything past the first entry never used is zero. */
  ghost predicate Clean(t: seq<Entry>) {
    forall i, j :: 0 <= i < j < |t| && t[i][0] == 0 ==> t[j] == seq(ENTRY, _ => 0)
  }

  /** It stays so when names are registered, in a stretched table too, and removed. */
  lemma CleanStays(t: seq<Entry>, size: nat, n: seq<byte>)
    requires Clean(t) && TableOk(t) && IsName(n) && FirstBlank(t, 0) < |Stretched(t, size)|
    ensures Clean(Stretched(t, size)[FirstBlank(t, 0) := NewEntry(n)])
    ensures Lookup(t, n) != None ==> Clean(t[Find(t, n, 0) := Removed(t[Find(t, n, 0)])])
  {
    var k, wide := FirstBlank(t, 0), Stretched(t, size);
    FirstBlankIs(wide, k);
    forall i, j | 0 <= i < j < |wide| && wide[i][0] == 0 ensures i >= k && wide[j] == seq(ENTRY, _ => 0) {
      assert Blank(wide[i]);
    }
    FindIs(t, n, 0);
    var f := Find(t, n, 0);
    if f < |t| {
      assert t[f][..NAME][0] == t[f][0];
    }
  }
}
