/** Page tables as values: which frames the entries name, how frames are accounted for, what shape the tables have, and
    what a process sees through them. */
module Paging {
  import opened Common

  const TABLE := 1024      // entries of a page table
  const USER_SLOTS := 511  // directory slots of the user half: USERTOP / PTSIZE
  const TEMP_SLOT := 1     // the slot of temporary kernel mappings: USERTEMP / PTSIZE
  const PAGE := 4096

  /** Where a page table or directory entry lies: the frame of the table, and the index in it. */
  datatype Slot = Slot(table: nat, index: nat)

  /** A valid entry. */
  datatype Pte = Pte(frame: nat, user: bool, writable: bool, cow: bool)

  type Ptes = map<Slot, Pte>

  // Reference counts.

  function Naming(pte: Ptes, f: nat): set<Slot> {
    set k | k in pte && pte[k].frame == f
  }

  /** How many valid entries name frame f. */
  function Count(pte: Ptes, f: nat): nat {
    |Naming(pte, f)|
  }

  function Drop(pte: Ptes, k: Slot): (r: Ptes)
    ensures k !in r && r.Keys == pte.Keys - {k}
    ensures forall m :: m in pte && m != k ==> m in r && r[m] == pte[m]
  {
    map m | m in pte && m != k :: pte[m]
  }

  lemma CountAdd(pte: Ptes, k: Slot, e: Pte, f: nat)
    requires k !in pte
    ensures Count(pte[k := e], f) == Count(pte, f) + if e.frame == f then 1 else 0
  {
    assert Naming(pte[k := e], f) == Naming(pte, f) + if e.frame == f then {k} else {};
  }

  lemma CountDrop(pte: Ptes, k: Slot, f: nat)
    requires k in pte
    ensures Count(Drop(pte, k), f) == Count(pte, f) - if pte[k].frame == f then 1 else 0
    ensures pte[k].frame == f ==> Count(pte, f) > 0
  {
    assert Naming(pte, f) == Naming(Drop(pte, k), f) + if pte[k].frame == f then {k} else {};
  }

  /** Only the frames matter. */
  lemma CountSame(a: Ptes, b: Ptes, f: nat)
    requires a.Keys == b.Keys && forall k :: k in a ==> a[k].frame == b[k].frame
    ensures Count(a, f) == Count(b, f)
  {
    assert forall k :: k in a <==> k in b;
    assert Naming(a, f) == Naming(b, f);
  }

  lemma Named(pte: Ptes, k: Slot)
    requires k in pte
    ensures Count(pte, pte[k].frame) > 0
  {
    assert k in Naming(pte, pte[k].frame);
  }

  lemma NamedOnce(pte: Ptes, k: Slot, m: Slot)
    requires k in pte && m in pte && pte[k].frame == pte[m].frame && Count(pte, pte[k].frame) == 1
    ensures k == m
  {
    if k != m {
      assert {k, m} <= Naming(pte, pte[k].frame);
      Fewer({k, m}, Naming(pte, pte[k].frame));
    }
  }

  lemma Fewer(a: set<Slot>, b: set<Slot>)
    requires a <= b
    ensures |a| <= |b|
  {
    assert b == a + (b - a);
  }

  // Books: counts and the free list.

  /** The reference count of each frame that is not pinned is the number of entries naming it, plus the references
      held by running code; the free list holds exactly the frames with count 0 that are not being handed out. */
  ghost predicate Books(pte: Ptes, rc: seq<nat>, free: seq<nat>, pinned: set<nat>, taken: set<nat>,
                        held: multiset<nat>) {
    && (forall f :: 0 <= f < |rc| && f !in pinned ==> rc[f] == Count(pte, f) + held[f])
    && NoDup(free)
    && (forall f: nat :: f in free <==> InFree(rc, pinned, taken, f))
    && (forall f :: f in taken ==> f < |rc| && f !in pinned && rc[f] == 0)
  }

  ghost predicate InFree(rc: seq<nat>, pinned: set<nat>, taken: set<nat>, f: nat) {
    f < |rc| && f !in pinned && rc[f] == 0 && f !in taken
  }

  lemma Unnamed(pte: Ptes, rc: seq<nat>, free: seq<nat>, pinned: set<nat>, taken: set<nat>, held: multiset<nat>, f: nat)
    requires Books(pte, rc, free, pinned, taken, held) && f in taken
    ensures f < |rc| && f !in pinned && Count(pte, f) == 0
  {
  }

  /** A frame leaves the free list. */
  lemma BooksTake(pte: Ptes, rc: seq<nat>, free: seq<nat>, pinned: set<nat>, taken: set<nat>, held: multiset<nat>)
    requires Books(pte, rc, free, pinned, taken, held) && free != []
    ensures
      var f := free[0];
      && f < |rc| && f !in pinned && rc[f] == 0 && Count(pte, f) == 0 && held[f] == 0 && f !in taken
      && Books(pte, rc, free[1..], pinned, taken + {f}, held)
  {
    var f, rest, t := free[0], free[1..], taken + {free[0]};
    assert f in free;
    assert InFree(rc, pinned, taken, f);
    forall g: nat ensures g in rest <==> InFree(rc, pinned, t, g) {
      if g in free {
        var i :| 0 <= i < |free| && free[i] == g;
        assert i > 0 ==> rest[i - 1] == g;
      }
    }
  }

  /** A frame handed out gets its first reference from running code. */
  lemma BooksHold(pte: Ptes, rc: seq<nat>, free: seq<nat>, pinned: set<nat>, taken: set<nat>, held: multiset<nat>,
                  f: nat)
    requires Books(pte, rc, free, pinned, taken, held) && f < |rc| && f !in pinned
    requires f in taken || rc[f] > 0
    ensures Books(pte, rc[f := rc[f] + 1], free, pinned, taken - {f}, held + multiset{f})
  {
  }

  /** A reference of running code is given up; at 0 the frame goes to the head of the free list. */
  lemma BooksRelease(pte: Ptes, rc: seq<nat>, free: seq<nat>, pinned: set<nat>, taken: set<nat>, held: multiset<nat>,
                     f: nat)
    requires Books(pte, rc, free, pinned, taken, held) && f < |rc| && f !in pinned && f in held
    ensures rc[f] > 0
    ensures Books(pte, rc[f := rc[f] - 1], if rc[f] == 1 then [f] + free else free, pinned, taken, held - multiset{f})
  {
    var now := if rc[f] == 1 then [f] + free else free;
    assert !InFree(rc, pinned, taken, f);
    forall g: nat ensures g in now <==> InFree(rc[f := rc[f] - 1], pinned, taken, g) {
      assert g in free <==> InFree(rc, pinned, taken, g);
    }
  }

  /** An entry takes over a reference of running code. */
  lemma BooksEnter(pte: Ptes, rc: seq<nat>, free: seq<nat>, pinned: set<nat>, taken: set<nat>, held: multiset<nat>,
                   k: Slot, e: Pte)
    requires Books(pte, rc, free, pinned, taken, held) && k !in pte && e.frame in held
    ensures Books(pte[k := e], rc, free, pinned, taken, held - multiset{e.frame})
  {
    forall f | 0 <= f < |rc| ensures Count(pte[k := e], f) == Count(pte, f) + if e.frame == f then 1 else 0 {
      CountAdd(pte, k, e, f);
    }
  }

  /** Running code takes over the reference of an entry. */
  lemma BooksLeave(pte: Ptes, rc: seq<nat>, free: seq<nat>, pinned: set<nat>, taken: set<nat>, held: multiset<nat>,
                   k: Slot)
    requires Books(pte, rc, free, pinned, taken, held) && k in pte
    ensures Books(Drop(pte, k), rc, free, pinned, taken, held + multiset{pte[k].frame})
  {
    hide Drop;
    forall f | 0 <= f < |rc| ensures Count(Drop(pte, k), f) == Count(pte, f) - if pte[k].frame == f then 1 else 0 {
      CountDrop(pte, k, f);
    }
  }

  /** Flags of an entry do not matter. */
  lemma BooksRecolor(pte: Ptes, rc: seq<nat>, free: seq<nat>, pinned: set<nat>, taken: set<nat>, held: multiset<nat>,
                     k: Slot, e: Pte)
    requires Books(pte, rc, free, pinned, taken, held) && k in pte && e.frame == pte[k].frame
    ensures Books(pte[k := e], rc, free, pinned, taken, held)
  {
    forall f | 0 <= f < |rc| ensures Count(pte[k := e], f) == Count(pte, f) {
      CountSame(pte[k := e], pte, f);
    }
  }

  // The shape of the tables.

  /** What frames are used for: the system table holds the kernel's mapping of each directory; a page table has one
      owner, a directory and a slot of its user half. */
  datatype Roles = Roles(sys: nat, home: map<nat, nat>, owner: map<nat, (nat, nat)>)

  /** Entries that map pages, in the page tables of the user half. */
  predicate Leaf(r: Roles, k: Slot) {
    k.table in r.owner
  }

  ghost predicate Placed(pte: Ptes, r: Roles, k: Slot)
    requires k in pte
  {
    if k.table == r.sys then
      pte[k].frame in r.home && r.home[pte[k].frame] == k.index
    else if k.table in r.home then
      k.index < USER_SLOTS && pte[k].frame in r.owner && r.owner[pte[k].frame] == (k.table, k.index)
    else
      k.table in r.owner && LeafOk(r, k, pte[k])
  }

  /** User pages everywhere but in the temporary slot, never a page table or directory; copy-on-write pages are
      read-only. */
  predicate LeafOk(r: Roles, k: Slot, e: Pte)
    requires Leaf(r, k)
  {
    && k.index < TABLE
    && e.frame !in r.home
    && (e.user <==> r.owner[k.table].1 != TEMP_SLOT)
    && (e.user ==> e.frame !in r.owner)
    && !(e.cow && e.writable)
  }

  ghost predicate Homed(pte: Ptes, r: Roles, d: nat)
    requires d in r.home
  {
    Slot(r.sys, r.home[d]) in pte && pte[Slot(r.sys, r.home[d])].frame == d
  }

  ghost predicate Owned(pte: Ptes, r: Roles, t: nat)
    requires t in r.owner
  {
    var (d, s) := r.owner[t];
    d in r.home && s < USER_SLOTS && t !in r.home && Slot(d, s) in pte && pte[Slot(d, s)].frame == t
  }

  /** A user page mapped writable is mapped by exactly one entry. */
  ghost predicate Exclusive(pte: Ptes, r: Roles) {
    forall k {:trigger Alone(pte, k)} :: k in pte && Leaf(r, k) && pte[k].user && pte[k].writable ==> Alone(pte, k)
  }

  ghost predicate Alone(pte: Ptes, k: Slot)
    requires k in pte
  {
    forall m :: m in pte && pte[m].frame == pte[k].frame ==> m == k
  }

  ghost predicate InRange(pte: Ptes, pinned: set<nat>, n: nat) {
    forall k :: k in pte ==> pte[k].frame < n && pte[k].frame !in pinned
  }

  ghost predicate Shape(pte: Ptes, r: Roles, pinned: set<nat>, n: nat) {
    && r.sys in pinned
    && InRange(pte, pinned, n)
    && (forall k {:trigger Placed(pte, r, k)} :: k in pte ==> Placed(pte, r, k))
    && (forall d {:trigger Homed(pte, r, d)} :: d in r.home ==> Homed(pte, r, d))
    && (forall t {:trigger Owned(pte, r, t)} :: t in r.owner ==> Owned(pte, r, t))
    && Exclusive(pte, r)
  }

  lemma NotSys(pte: Ptes, r: Roles, pinned: set<nat>, n: nat, f: nat)
    requires Shape(pte, r, pinned, n) && (f in r.home || f in r.owner)
    ensures f != r.sys && f < n && f !in pinned && Count(pte, f) > 0
  {
    if f in r.home {
      assert Homed(pte, r, f);
      Named(pte, Slot(r.sys, r.home[f]));
    } else {
      assert Owned(pte, r, f);
      Named(pte, Slot(r.owner[f].0, r.owner[f].1));
    }
  }

  /** A new page table in an empty slot of a directory. */
  lemma ShapeTable(pte: Ptes, r: Roles, pinned: set<nat>, n: nat, d: nat, s: nat, t: nat)
    requires Shape(pte, r, pinned, n) && d in r.home && s < USER_SLOTS && Slot(d, s) !in pte
    requires t < n && t !in pinned && Count(pte, t) == 0
    ensures Shape(pte[Slot(d, s) := Pte(t, true, true, false)], r.(owner := r.owner[t := (d, s)]), pinned, n)
    ensures t !in r.owner && forall i: nat :: Slot(t, i) !in pte
  {
    var now, q := pte[Slot(d, s) := Pte(t, true, true, false)], r.(owner := r.owner[t := (d, s)]);
    Fresh(pte, r, pinned, n, t);
    forall k | k in now ensures Placed(now, q, k) {
      if k != Slot(d, s) {
        assert Placed(pte, r, k);
      } else {
        NotSys(pte, r, pinned, n, d);
      }
    }
    forall c | c in q.home ensures Homed(now, q, c) {
      assert Homed(pte, r, c);
      NotSys(pte, r, pinned, n, d);
    }
    forall u | u in q.owner ensures Owned(now, q, u) {
      if u != t {
        assert Owned(pte, r, u);
      }
    }
    forall u | u in r.owner ensures u !in r.home {
      assert Owned(pte, r, u);
    }
    forall x | x in now && Leaf(q, x) && now[x].user && now[x].writable ensures Alone(now, x) {
      assert Alone(pte, x);
      Named(pte, x);
    }
  }

  /** A frame no entry names has no role and no entries. */
  lemma Fresh(pte: Ptes, r: Roles, pinned: set<nat>, n: nat, f: nat)
    requires Shape(pte, r, pinned, n) && f !in pinned && Count(pte, f) == 0
    ensures f !in r.owner && f !in r.home
    ensures forall k :: k in pte ==> k.table != f && pte[k].frame != f
  {
    if f in r.owner || f in r.home {
      NotSys(pte, r, pinned, n, f);
    }
    forall k | k in pte ensures k.table != f && pte[k].frame != f {
      assert Placed(pte, r, k);
      Named(pte, k);
    }
  }

  /** A new mapping in a page table. */
  lemma ShapeLeaf(pte: Ptes, r: Roles, pinned: set<nat>, n: nat, k: Slot, e: Pte)
    requires Shape(pte, r, pinned, n) && k !in pte && Leaf(r, k) && LeafOk(r, k, e)
    requires e.frame < n && e.frame !in pinned
    requires e.user && e.writable ==> Count(pte, e.frame) == 0
    requires forall m :: m in pte && Leaf(r, m) && pte[m].user && pte[m].frame == e.frame ==> !pte[m].writable
    ensures Shape(pte[k := e], r, pinned, n)
  {
    var now := pte[k := e];
    NotSys(pte, r, pinned, n, k.table);
    assert Owned(pte, r, k.table);
    forall m | m in now ensures Placed(now, r, m) {
      if m != k {
        assert Placed(pte, r, m);
      }
    }
    forall d | d in r.home ensures Homed(now, r, d) {
      assert Homed(pte, r, d);
    }
    forall t | t in r.owner ensures Owned(now, r, t) {
      assert Owned(pte, r, t);
    }
    forall x | x in now && Leaf(r, x) && now[x].user && now[x].writable ensures Alone(now, x) {
      if x != k {
        assert Alone(pte, x);
      } else {
        forall m | m in now && now[m].frame == e.frame ensures m == k {
          if m != k {
            Named(pte, m);
            assert false;
          }
        }
      }
    }
  }

  /** A mapping is removed. */
  lemma ShapeUnmap(pte: Ptes, r: Roles, pinned: set<nat>, n: nat, k: Slot)
    requires Shape(pte, r, pinned, n) && k in pte && Leaf(r, k)
    ensures Shape(Drop(pte, k), r, pinned, n)
  {
    hide Drop;
    var now := Drop(pte, k);
    NotSys(pte, r, pinned, n, k.table);
    assert Owned(pte, r, k.table);
    forall m | m in now ensures Placed(now, r, m) {
      assert Placed(pte, r, m);
    }
    forall d | d in r.home ensures Homed(now, r, d) {
      assert Homed(pte, r, d);
    }
    forall t | t in r.owner ensures Owned(now, r, t) {
      assert Owned(pte, r, t);
    }
    forall x | x in now && Leaf(r, x) && now[x].user && now[x].writable ensures Alone(now, x) {
      assert Alone(pte, x);
    }
  }

  function Without(owner: map<nat, (nat, nat)>, t: nat): (r: map<nat, (nat, nat)>)
    ensures r.Keys == owner.Keys - {t} && forall u :: u in r ==> r[u] == owner[u]
  {
    map u | u in owner && u != t :: owner[u]
  }

  /** An empty page table is removed from its directory. */
  lemma ShapeNoTable(pte: Ptes, r: Roles, pinned: set<nat>, n: nat, d: nat, s: nat)
    requires Shape(pte, r, pinned, n) && d in r.home && Slot(d, s) in pte
    requires forall i: nat :: Slot(pte[Slot(d, s)].frame, i) !in pte
    ensures Shape(Drop(pte, Slot(d, s)), r.(owner := Without(r.owner, pte[Slot(d, s)].frame)), pinned, n)
  {
    hide Drop;
    var t := pte[Slot(d, s)].frame;
    var now, q := Drop(pte, Slot(d, s)), r.(owner := Without(r.owner, t));
    NotSys(pte, r, pinned, n, d);
    assert Placed(pte, r, Slot(d, s));
    forall k | k in now ensures Placed(now, q, k) {
      assert Placed(pte, r, k);
      assert k.table == t ==> k == Slot(t, k.index);
    }
    forall c | c in q.home ensures Homed(now, q, c) {
      assert Homed(pte, r, c);
    }
    forall u | u in q.owner ensures Owned(now, q, u) {
      assert Owned(pte, r, u);
    }
    forall x | x in now && Leaf(q, x) && now[x].user && now[x].writable ensures Alone(now, x) {
      assert Alone(pte, x);
    }
  }

  /** Flags of a mapping change: to read-only copy-on-write, or to writable where it is the only one. */
  lemma ShapeRecolor(pte: Ptes, r: Roles, pinned: set<nat>, n: nat, k: Slot, e: Pte)
    requires Shape(pte, r, pinned, n) && k in pte && Leaf(r, k) && LeafOk(r, k, e) && e.frame == pte[k].frame
    requires e.user && e.writable ==> Count(pte, e.frame) == 1
    ensures Shape(pte[k := e], r, pinned, n)
  {
    var now := pte[k := e];
    NotSys(pte, r, pinned, n, k.table);
    assert Owned(pte, r, k.table);
    assert Placed(pte, r, k);
    forall m | m in now ensures Placed(now, r, m) {
      assert Placed(pte, r, m);
    }
    forall d | d in r.home ensures Homed(now, r, d) {
      assert Homed(pte, r, d);
    }
    forall t | t in r.owner ensures Owned(now, r, t) {
      assert Owned(pte, r, t);
    }
    forall x | x in now && Leaf(r, x) && now[x].user && now[x].writable ensures Alone(now, x) {
      if x != k {
        assert Alone(pte, x);
      } else {
        forall m | m in now && now[m].frame == e.frame ensures m == k {
          NamedOnce(pte, k, m);
        }
      }
    }
  }

  /** A new directory, mapped by the kernel. */
  lemma ShapeDirectory(pte: Ptes, r: Roles, pinned: set<nat>, n: nat, i: nat, d: nat)
    requires Shape(pte, r, pinned, n) && Slot(r.sys, i) !in pte
    requires d < n && d !in pinned && Count(pte, d) == 0
    ensures Shape(pte[Slot(r.sys, i) := Pte(d, false, true, false)], r.(home := r.home[d := i]), pinned, n)
    ensures d !in r.home && d != r.sys && forall s: nat :: Slot(d, s) !in pte
  {
    var now, q := pte[Slot(r.sys, i) := Pte(d, false, true, false)], r.(home := r.home[d := i]);
    Fresh(pte, r, pinned, n, d);
    if r.sys in r.home || r.sys in r.owner {
      NotSys(pte, r, pinned, n, r.sys);
    }
    forall k | k in now ensures Placed(now, q, k) {
      if k != Slot(r.sys, i) {
        assert Placed(pte, r, k);
      }
    }
    forall c | c in q.home ensures Homed(now, q, c) {
      if c != d {
        assert Homed(pte, r, c);
      }
    }
    forall t | t in q.owner ensures Owned(now, q, t) {
      assert Owned(pte, r, t);
    }
    forall x | x in now && Leaf(q, x) && now[x].user && now[x].writable ensures Alone(now, x) {
      assert Alone(pte, x);
      Named(pte, x);
    }
  }

  function WithoutHome(home: map<nat, nat>, d: nat): map<nat, nat> {
    map c | c in home && c != d :: home[c]
  }

  /** An empty directory is unmapped. */
  lemma ShapeNoDirectory(pte: Ptes, r: Roles, pinned: set<nat>, n: nat, d: nat)
    requires Shape(pte, r, pinned, n) && d in r.home && forall s: nat :: Slot(d, s) !in pte
    ensures Slot(r.sys, r.home[d]) in pte && pte[Slot(r.sys, r.home[d])].frame == d
    ensures Shape(Drop(pte, Slot(r.sys, r.home[d])), r.(home := WithoutHome(r.home, d)), pinned, n)
  {
    hide Drop;
    assert Homed(pte, r, d);
    var now, q := Drop(pte, Slot(r.sys, r.home[d])), r.(home := WithoutHome(r.home, d));
    if r.sys in r.home || r.sys in r.owner {
      NotSys(pte, r, pinned, n, r.sys);
    }
    forall k | k in now ensures Placed(now, q, k) {
      assert Placed(pte, r, k);
      assert k.table == d ==> k == Slot(d, k.index);
    }
    forall c | c in q.home ensures Homed(now, q, c) {
      assert Homed(pte, r, c);
    }
    forall t | t in q.owner ensures Owned(now, q, t) {
      assert Owned(pte, r, t);
    }
    forall x | x in now && Leaf(q, x) && now[x].user && now[x].writable ensures Alone(now, x) {
      assert Alone(pte, x);
    }
  }

  // What a process sees.

  /** A page of the user half, and whether the process may write to it, at once or after a copy. */
  datatype View = Unmapped | Mapped(bytes: seq<byte>, rw: bool)

  function Look(pte: Ptes, data: seq<seq<byte>>, d: nat, s: nat, i: nat): View {
    if Slot(d, s) in pte then Page(pte, data, Slot(pte[Slot(d, s)].frame, i)) else Unmapped
  }

  function Page(pte: Ptes, data: seq<seq<byte>>, k: Slot): View {
    if k in pte && pte[k].frame < |data| then Mapped(data[pte[k].frame], pte[k].writable || pte[k].cow) else Unmapped
  }

  /** All processes see what they saw, except for the page x. */
  ghost predicate SameBut(dirs: map<nat, nat>, p0: Ptes, d0: seq<seq<byte>>, p1: Ptes, d1: seq<seq<byte>>,
                          x: (nat, nat, nat)) {
    forall d: nat, s: nat, i: nat :: d in dirs && s != TEMP_SLOT && (d, s, i) != x ==>
      Look(p1, d1, d, s, i) == Look(p0, d0, d, s, i)
  }

  /** All processes see what they saw. */
  ghost predicate Same(dirs: map<nat, nat>, p0: Ptes, d0: seq<seq<byte>>, p1: Ptes, d1: seq<seq<byte>>) {
    forall d: nat, s: nat, i: nat :: d in dirs && s != TEMP_SLOT ==> Look(p1, d1, d, s, i) == Look(p0, d0, d, s, i)
  }

  /** The table a directory entry leads to is owned by that entry. */
  lemma Walk(pte: Ptes, r: Roles, pinned: set<nat>, n: nat, d: nat, s: nat)
    requires Shape(pte, r, pinned, n) && d in r.home && Slot(d, s) in pte
    ensures
      var t := pte[Slot(d, s)].frame;
      t in r.owner && r.owner[t] == (d, s) && s < USER_SLOTS && t !in r.home && t != r.sys
  {
    assert Placed(pte, r, Slot(d, s));
    NotSys(pte, r, pinned, n, d);
    assert Owned(pte, r, pte[Slot(d, s)].frame);
    NotSys(pte, r, pinned, n, pte[Slot(d, s)].frame);
  }

  /** A new, empty page table shows nothing. */
  lemma LookTable(pte: Ptes, r: Roles, pinned: set<nat>, n: nat, data: seq<seq<byte>>, d: nat, s: nat, t: nat)
    requires Shape(pte, r, pinned, n) && d in r.home && Slot(d, s) !in pte && Count(pte, t) == 0 && t !in pinned
    ensures Same(r.home, pte, data, pte[Slot(d, s) := Pte(t, true, true, false)], data)
  {
    var now := pte[Slot(d, s) := Pte(t, true, true, false)];
    Fresh(pte, r, pinned, n, t);
    NotSys(pte, r, pinned, n, d);
    Named(pte, Slot(r.sys, r.home[d])) by { assert Homed(pte, r, d); }
    hide Shape;
    forall e: nat, u: nat, i: nat | e in r.home && u != TEMP_SLOT
      ensures Look(now, data, e, u, i) == Look(pte, data, e, u, i) {
      if Slot(e, u) in pte {
        Walk(pte, r, pinned, n, e, u);
      }
    }
  }

  /** Changing an entry of a page table shows only at its page. */
  lemma LookLeaf(pte: Ptes, now: Ptes, r: Roles, pinned: set<nat>, n: nat, data: seq<seq<byte>>, k: Slot)
    requires Shape(pte, r, pinned, n) && Leaf(r, k)
    requires forall m :: m != k ==> (m in now <==> m in pte) && (m in pte ==> now[m] == pte[m])
    ensures
      var (d, s) := r.owner[k.table];
      && SameBut(r.home, pte, data, now, data, (d, s, k.index))
      && Look(now, data, d, s, k.index) == Page(now, data, k)
      && Look(pte, data, d, s, k.index) == Page(pte, data, k)
  {
    var (d, s) := r.owner[k.table];
    assert Owned(pte, r, k.table);
    assert k == Slot(k.table, k.index);
    forall e: nat, u: nat, i: nat | e in r.home && (e, u, i) != (d, s, k.index)
      ensures Look(now, data, e, u, i) == Look(pte, data, e, u, i)
    {
      NotSys(pte, r, pinned, n, k.table);
      if Slot(e, u) in pte {
        Walk(pte, r, pinned, n, e, u);
      }
    }
  }

  /** Removing an empty page table shows nothing. */
  lemma LookNoTable(pte: Ptes, r: Roles, pinned: set<nat>, n: nat, data: seq<seq<byte>>, d: nat, s: nat)
    requires Shape(pte, r, pinned, n) && d in r.home && Slot(d, s) in pte
    requires forall i: nat :: Slot(pte[Slot(d, s)].frame, i) !in pte
    ensures Same(r.home, pte, data, Drop(pte, Slot(d, s)), data)
  {
    hide Drop;
    NotSys(pte, r, pinned, n, d);
    forall e: nat, u: nat, i: nat | e in r.home
      ensures Look(Drop(pte, Slot(d, s)), data, e, u, i) == Look(pte, data, e, u, i) {
      if Slot(e, u) in pte {
        Walk(pte, r, pinned, n, e, u);
      }
    }
  }

  /** Writing to a page that is mapped writable shows only there. */
  lemma LookWrite(pte: Ptes, r: Roles, pinned: set<nat>, n: nat, data: seq<seq<byte>>, k: Slot, page: seq<byte>)
    requires Shape(pte, r, pinned, n) && k in pte && Leaf(r, k) && pte[k].user && pte[k].writable && |data| == n
    ensures pte[k].frame < n
    ensures
      var (d, s) := r.owner[k.table];
      && SameBut(r.home, pte, data, pte, data[pte[k].frame := page], (d, s, k.index))
      && Look(pte, data[pte[k].frame := page], d, s, k.index) == Mapped(page, true)
  {
    var (d, s) := r.owner[k.table];
    assert Owned(pte, r, k.table);
    assert Alone(pte, k);
    assert k == Slot(k.table, k.index);
    forall e: nat, u: nat, i: nat | e in r.home && (e, u, i) != (d, s, k.index)
      ensures Look(pte, data[pte[k].frame := page], e, u, i) == Look(pte, data, e, u, i)
    {
      if Slot(e, u) in pte {
        Walk(pte, r, pinned, n, e, u);
      }
    }
  }

  /** The tables after entry e is put at index i of table t, the one for slot s of directory d, which may be new. */
  function With(pte: Ptes, d: nat, s: nat, t: nat, i: nat, e: Pte): Ptes {
    if Slot(d, s) in pte then pte[Slot(t, i) := e] else pte[Slot(d, s) := Pte(t, true, true, false)][Slot(t, i) := e]
  }

  /** Does directory d map no page at g? */
  predicate NoPage(pte: Ptes, d: nat, g: nat) {
    Slot(d, g / 1024) in pte ==> Slot(pte[Slot(d, g / 1024)].frame, g % 1024) !in pte
  }

  /** The slots of directory d that have no page table for the pages from p to e. */
  ghost function Tables(pte: Ptes, d: nat, p: nat, e: nat): set<nat> {
    set g | p <= g < e && Slot(d, g / 1024) !in pte :: g / 1024
  }

  /** The frames that it takes to map them, when nothing is mapped there. */
  ghost function Frames(pte: Ptes, d: nat, p: nat, e: nat): nat {
    (if p < e then e - p else 0) + |Tables(pte, d, p, e)|
  }

  lemma FramesNone(pte: Ptes, d: nat, e: nat)
    ensures Frames(pte, d, e, e) == 0
  {
    assert Tables(pte, d, e, e) == {};
  }

  lemma FramesMore(was: Ptes, now: Ptes, d: nat, g: nat, e: nat)
    requires g < e && forall s: nat :: Slot(d, s) in now <==> Slot(d, s) in was || s == g / 1024
    ensures Frames(was, d, g, e) == Frames(now, d, g + 1, e) + if Slot(d, g / 1024) in was then 1 else 2
  {
    var s := g / 1024;
    var a, b := Tables(was, d, g, e), Tables(now, d, g + 1, e);
    assert b == a - {s} by {
      forall x | x in a - {s} ensures x in b {
        var h :| g <= h < e && Slot(d, h / 1024) !in was && h / 1024 == x;
        assert g + 1 <= h && Slot(d, h / 1024) !in now;
      }
      forall x | x in b ensures x in a - {s} {
        var h :| g + 1 <= h < e && Slot(d, h / 1024) !in now && h / 1024 == x;
        assert Slot(d, h / 1024) !in was;
      }
    }
    assert Slot(d, s) !in was ==> s in a by {
      assert g <= g < e;
    }
    assert Slot(d, s) in was ==> s !in a;
  }

  /** Mapping one page leaves the other places empty that were. */
  lemma StillNoPage(was: Ptes, now: Ptes, r: Roles, pinned: set<nat>, n: nat, d: nat, s: nat, i: nat, e: Pte, g: nat)
    requires Shape(now, r, pinned, n) && d in r.home && Slot(d, s) in now && g != 1024 * s + i && i < 1024
    requires now == With(was, d, s, now[Slot(d, s)].frame, i, e) && NoPage(was, d, g)
    requires Slot(d, s) in was ==> now[Slot(d, s)] == was[Slot(d, s)]
    requires Slot(d, s) !in was ==> forall j: nat :: Slot(now[Slot(d, s)].frame, j) !in was
    ensures NoPage(now, d, g)
  {
    Walk(now, r, pinned, n, d, s);
    if Slot(d, g / 1024) in now {
      Walk(now, r, pinned, n, d, g / 1024);
    }
    hide Shape;
  }

  /** After it the directory has one page table more, if any. */
  lemma SlotsWith(was: Ptes, now: Ptes, r: Roles, pinned: set<nat>, n: nat, d: nat, s: nat, i: nat, e: Pte)
    requires Shape(now, r, pinned, n) && d in r.home && Slot(d, s) in now
    requires now == With(was, d, s, now[Slot(d, s)].frame, i, e)
    ensures forall u: nat :: Slot(d, u) in now <==> Slot(d, u) in was || u == s
  {
    Walk(now, r, pinned, n, d, s);
    hide Shape;
  }

  /** A new page table maps nothing yet. */
  lemma ReadOnlyStill(pte: Ptes, now: Ptes, r: Roles, q: Roles, pinned: set<nat>, n: nat, d: nat, s: nat, f: nat)
    requires Shape(now, q, pinned, n) && d in q.home && Slot(d, s) in now &&
      q.owner == r.owner[now[Slot(d, s)].frame := (d, s)]
    requires pte == now ==> r == q
    requires pte == now || (now == pte[Slot(d, s) := now[Slot(d, s)]] &&
      forall i: nat :: Slot(now[Slot(d, s)].frame, i) !in pte)
    requires ReadOnly(pte, r, f)
    ensures ReadOnly(now, q, f)
  {
    Walk(now, q, pinned, n, d, s);
    forall u | u in q.owner ensures u !in q.home {
      assert Owned(now, q, u);
    }
    forall m | m in now && Leaf(q, m) && now[m].user && now[m].frame == f ensures !now[m].writable {
      assert m == Slot(m.table, m.index);
    }
  }

  lemma InTable(pte: Ptes, r: Roles, pinned: set<nat>, n: nat, k: Slot)
    requires Shape(pte, r, pinned, n) && k in pte && Leaf(r, k)
    ensures pte[k].frame < n && pte[k].frame !in pinned && LeafOk(r, k, pte[k])
  {
    NotSys(pte, r, pinned, n, k.table);
    assert Owned(pte, r, k.table);
    assert Placed(pte, r, k);
  }

  /** Is there room for a temporary mapping in directory d? */
  ghost predicate TempRoom(pte: Ptes, d: nat) {
    Slot(d, TEMP_SLOT) in pte ==> exists i: nat :: i < TABLE && Slot(pte[Slot(d, TEMP_SLOT)].frame, i) !in pte
  }

  /** The frames that a temporary mapping takes: one if its page table is missing. */
  function TempCost(pte: Ptes, d: nat): nat {
    if Slot(d, TEMP_SLOT) in pte then 0 else 1
  }

  /** Is there room for the copy of a page, with this number of free frames? */
  ghost predicate CopyFits(pte: Ptes, d: nat, free: nat) {
    TempRoom(pte, d) && free >= 1 + TempCost(pte, d)
  }

  /** A page mapped read-only, of a frame that other entries name too. */
  predicate SharedAt(pte: Ptes, d: nat, s: nat, i: nat) {
    && Slot(d, s) in pte
    && var k := Slot(pte[Slot(d, s)].frame, i);
       k in pte && !pte[k].writable && Count(pte, pte[k].frame) > 1
  }

  lemma TempStill(pte: Ptes, now: Ptes, r: Roles, pinned: set<nat>, n: nat, d: nat, k: Slot)
    requires Shape(pte, r, pinned, n) && d in r.home && k in pte && Leaf(r, k) && pte[k].user && now == Drop(pte, k)
    ensures (TempRoom(now, d) <==> TempRoom(pte, d)) && TempCost(now, d) == TempCost(pte, d)
  {
    InTable(pte, r, pinned, n, k);
    assert Owned(pte, r, k.table);
    Walk(pte, r, pinned, n, r.owner[k.table].0, r.owner[k.table].1);
    if Slot(d, TEMP_SLOT) in pte {
      Walk(pte, r, pinned, n, d, TEMP_SLOT);
      assert forall i: nat :: Slot(pte[Slot(d, TEMP_SLOT)].frame, i) in now <==>
        Slot(pte[Slot(d, TEMP_SLOT)].frame, i) in pte;
    }
  }

  /** No process may write to frame f at once. */
  ghost predicate ReadOnly(pte: Ptes, r: Roles, f: nat) {
    forall m :: m in pte && Leaf(r, m) && pte[m].user && pte[m].frame == f ==> !pte[m].writable
  }

  lemma SameAgain(dirs: map<nat, nat>, p: Ptes, d: seq<seq<byte>>)
    ensures Same(dirs, p, d, p, d)
  {
  }

  lemma SameTemp(dirs: map<nat, nat>, p0: Ptes, d0: seq<seq<byte>>, p1: Ptes, d1: seq<seq<byte>>, x: (nat, nat, nat))
    requires SameBut(dirs, p0, d0, p1, d1, x) && x.1 == TEMP_SLOT
    ensures Same(dirs, p0, d0, p1, d1)
  {
  }

  lemma ButSame(dirs: map<nat, nat>, p0: Ptes, d0: seq<seq<byte>>, p1: Ptes, d1: seq<seq<byte>>, x: (nat, nat, nat))
    requires SameBut(dirs, p0, d0, p1, d1, x) && Look(p1, d1, x.0, x.1, x.2) == Look(p0, d0, x.0, x.1, x.2)
    ensures Same(dirs, p0, d0, p1, d1)
  {
  }

  /** A frame with a mapping that is read-only, or the kernel's, is mapped writable nowhere. */
  lemma SharedReadOnly(pte: Ptes, r: Roles, pinned: set<nat>, n: nat, k: Slot)
    requires Shape(pte, r, pinned, n) && k in pte && Leaf(r, k) && !(pte[k].user && pte[k].writable)
    ensures ReadOnly(pte, r, pte[k].frame)
  {
    forall m | m in pte && Leaf(r, m) && pte[m].user && pte[m].frame == pte[k].frame ensures !pte[m].writable {
      assert pte[m].writable ==> Alone(pte, m);
    }
  }

  lemma DropReadOnly(pte: Ptes, r: Roles, k: Slot, f: nat)
    requires ReadOnly(pte, r, f)
    ensures ReadOnly(Drop(pte, k), r, f)
  {
  }

  /** A frame with one reference, an entry's, is named by no other entry. */
  lemma OneReference(pte: Ptes, rc: seq<nat>, free: seq<nat>, pinned: set<nat>, taken: set<nat>, k: Slot)
    requires Books(pte, rc, free, pinned, taken, multiset{}) && k in pte
    requires pte[k].frame < |rc| && pte[k].frame !in pinned
    ensures rc[pte[k].frame] == Count(pte, pte[k].frame) > 0
  {
    Named(pte, k);
  }

  /** A frame that two entries name has two references. */
  lemma TwoReferences(pte: Ptes, rc: seq<nat>, free: seq<nat>, pinned: set<nat>, taken: set<nat>, held: multiset<nat>,
                      k: Slot, m: Slot)
    requires Books(pte, rc, free, pinned, taken, held) && k in pte && m in pte && k != m && pte[k].frame == pte[m].frame
    requires pte[k].frame < |rc| && pte[k].frame !in pinned
    ensures rc[pte[k].frame] >= 2
  {
    CountDrop(pte, k, pte[k].frame);
    Named(Drop(pte, k), m);
  }

  lemma ButTwice(dirs: map<nat, nat>, p0: Ptes, d0: seq<seq<byte>>, p1: Ptes, d1: seq<seq<byte>>,
                 p2: Ptes, d2: seq<seq<byte>>, x: (nat, nat, nat))
    requires Same(dirs, p0, d0, p1, d1) || SameBut(dirs, p0, d0, p1, d1, x)
    requires Same(dirs, p1, d1, p2, d2) || SameBut(dirs, p1, d1, p2, d2, x)
    ensures SameBut(dirs, p0, d0, p2, d2, x)
  {
  }

  // Cloning and deleting.

  /** A writable page becomes copy-on-write when it is shared. */
  function Shared(e: Pte): Pte {
    if e.writable then e.(writable := false, cow := true) else e
  }

  /** Entries of directory c and of its page tables. */
  predicate Belongs(r: Roles, k: Slot, c: nat) {
    k.table == c || (k.table in r.owner && r.owner[k.table].0 == c)
  }

  /** No entry was lost or now names another frame; the new ones are c's, or the entry x. */
  ghost predicate Grown(p0: Ptes, p1: Ptes, r: Roles, c: nat, x: Slot) {
    && (forall k :: k in p0 ==> k in p1 && p1[k].frame == p0[k].frame)
    && (forall k :: k in p1 && k !in p0 ==> Belongs(r, k, c) || k == x)
  }

  /** Growing the tables of c gives no page table to d but the temporary one. */
  lemma SlotsOf(p0: Ptes, p1: Ptes, r: Roles, pinned: set<nat>, n: nat, d: nat, c: nat, s: nat)
    requires Shape(p1, r, pinned, n) && d in r.home && c in r.home && d != c && Grown(p0, p1, r, c, Slot(d, TEMP_SLOT))
    ensures Slot(d, s) in p0 ==> Slot(d, s) in p1
    ensures s != TEMP_SLOT && Slot(d, s) in p1 ==> Slot(d, s) in p0
  {
    NoTableIsHome(p1, r, pinned, n);
    hide Shape;
  }

  lemma NoTableIsHome(pte: Ptes, r: Roles, pinned: set<nat>, n: nat)
    requires Shape(pte, r, pinned, n)
    ensures forall t :: t in r.owner ==> t !in r.home
  {
    forall t | t in r.owner ensures t !in r.home {
      assert Owned(pte, r, t);
    }
  }

  /** Processes other than c see what they saw. */
  ghost predicate SameOthers(dirs: map<nat, nat>, p0: Ptes, d0: seq<seq<byte>>, p1: Ptes, d1: seq<seq<byte>>, c: nat) {
    forall e: nat, s: nat, i: nat :: e in dirs && e != c && s != TEMP_SLOT ==>
      Look(p1, d1, e, s, i) == Look(p0, d0, e, s, i)
  }

  /** All processes see what they saw, except for slot s of directory c. */
  ghost predicate SameButSlot(dirs: map<nat, nat>, p0: Ptes, d0: seq<seq<byte>>, p1: Ptes, d1: seq<seq<byte>>, c: nat,
                              s: nat) {
    forall e: nat, u: nat, i: nat :: e in dirs && u != TEMP_SLOT && (e, u) != (c, s) ==>
      Look(p1, d1, e, u, i) == Look(p0, d0, e, u, i)
  }

  /** No entry was lost or now names another frame; the new ones are in table t. */
  ghost predicate GrownIn(p0: Ptes, p1: Ptes, t: nat) {
    && (forall k :: k in p0 ==> k in p1 && p1[k].frame == p0[k].frame)
    && (forall k :: k in p1 && k !in p0 ==> k.table == t)
  }

  lemma ButSlot(dirs: map<nat, nat>, p0: Ptes, d0: seq<seq<byte>>, p1: Ptes, d1: seq<seq<byte>>, p2: Ptes,
                d2: seq<seq<byte>>, c: nat, s: nat, i: nat)
    requires SameButSlot(dirs, p0, d0, p1, d1, c, s) && SameBut(dirs, p1, d1, p2, d2, (c, s, i))
    ensures SameButSlot(dirs, p0, d0, p2, d2, c, s)
    ensures c in dirs && s != TEMP_SLOT ==> forall j: nat :: j != i ==> Look(p2, d2, c, s, j) == Look(p1, d1, c, s, j)
  {
  }

  lemma ButSlotNone(dirs: map<nat, nat>, p: Ptes, data: seq<seq<byte>>, c: nat, s: nat)
    ensures SameButSlot(dirs, p, data, p, data, c, s)
  {
  }

  /** Page i of slot s in the middle of cloning from directory d to c. */
  lemma SlotLooks(p0: Ptes, pte: Ptes, r: Roles, pinned: set<nat>, n: nat, data: seq<seq<byte>>, d: nat, c: nat,
                  s: nat, i: nat)
    requires Shape(pte, r, pinned, n) && d in r.home && c in r.home && d != c && Slot(d, s) in pte && Slot(c, s) in pte
    requires SameButSlot(r.home, p0, data, pte, data, c, s) && |data| == n
    ensures s != TEMP_SLOT ==> Page(pte, data, Slot(pte[Slot(d, s)].frame, i)) == Look(p0, data, d, s, i)
    ensures Slot(pte[Slot(c, s)].frame, i) !in pte ==> Look(pte, data, c, s, i) == Unmapped
    ensures Slot(pte[Slot(d, s)].frame, i) !in pte ==> Page(pte, data, Slot(pte[Slot(d, s)].frame, i)) == Unmapped
  {
  }

  lemma SameSlot(dirs: map<nat, nat>, p: Ptes, m: seq<seq<byte>>, q: Ptes, n: seq<seq<byte>>, c: nat, s: nat)
    requires Same(dirs, p, m, q, n)
    ensures SameButSlot(dirs, p, m, q, n, c, s)
  {
  }

  lemma SlotTwice(dirs: map<nat, nat>, p0: Ptes, d0: seq<seq<byte>>, p1: Ptes, d1: seq<seq<byte>>, p2: Ptes,
                  d2: seq<seq<byte>>, c: nat, s: nat)
    requires SameButSlot(dirs, p0, d0, p1, d1, c, s) && SameButSlot(dirs, p1, d1, p2, d2, c, s)
    ensures SameButSlot(dirs, p0, d0, p2, d2, c, s)
  {
  }

  /** What was cloned from tables p2 to p3 shows the same before and after. */
  lemma AlikeStill(dirs: map<nat, nat>, p0: Ptes, p2: Ptes, p3: Ptes, p4: Ptes, data: seq<seq<byte>>, d: nat, c: nat,
                   s: nat)
    requires d in dirs && c in dirs && d != c && SameButSlot(dirs, p0, data, p2, data, c, s) &&
      Same(dirs, p3, data, p4, data)
    ensures s != TEMP_SLOT && Alike(p2, p3, data, d, c, s, TABLE) ==> Alike(p0, p4, data, d, c, s, TABLE)
  {
  }

  /** Slot s is cloned between p2 and p3; before and after no process saw a change. */
  lemma SlotCloned(dirs: map<nat, nat>, p0: Ptes, p2: Ptes, p3: Ptes, p4: Ptes, data: seq<seq<byte>>, d: nat, c: nat,
                   s: nat)
    requires d in dirs && c in dirs && d != c && SameButSlot(dirs, p0, data, p2, data, c, s)
    requires SameButSlot(dirs, p2, data, p3, data, c, s) && Same(dirs, p3, data, p4, data)
    ensures SameButSlot(dirs, p0, data, p4, data, c, s)
    ensures s != TEMP_SLOT && Alike(p2, p3, data, d, c, s, TABLE) ==> Alike(p0, p4, data, d, c, s, TABLE)
  {
    SameSlot(dirs, p3, data, p4, data, c, s);
    SlotTwice(dirs, p0, data, p2, data, p3, data, c, s);
    SlotTwice(dirs, p0, data, p3, data, p4, data, c, s);
    AlikeStill(dirs, p0, p2, p3, p4, data, d, c, s);
  }

  lemma PastTable(pte: Ptes, r: Roles, pinned: set<nat>, n: nat, data: seq<seq<byte>>, d: nat, s: nat)
    requires Shape(pte, r, pinned, n) && d in r.home && Slot(d, s) in pte
    ensures forall i: nat :: i >= TABLE ==> Look(pte, data, d, s, i) == Unmapped
  {
    Walk(pte, r, pinned, n, d, s);
    var t := pte[Slot(d, s)].frame;
    forall i: nat | i >= TABLE ensures Slot(t, i) !in pte {
      if Slot(t, i) in pte {
        InTable(pte, r, pinned, n, Slot(t, i));
        assert false;
      }
    }
  }

  /** Slot s of directory c shows on tables p1 what it showed for directory d on tables p0, up to page n. */
  ghost predicate Alike(p0: Ptes, p1: Ptes, data: seq<seq<byte>>, d: nat, c: nat, s: nat, n: nat) {
    forall i: nat :: i < n ==> Look(p1, data, c, s, i) == Look(p0, data, d, s, i)
  }

  lemma GrownNone(p: Ptes, r: Roles, c: nat, x: Slot)
    ensures Grown(p, p, r, c, x)
  {
  }

  /** Page tables keep their places. */
  ghost predicate OwnersKept(r: Roles, q: Roles) {
    forall t :: t in r.owner ==> t in q.owner && q.owner[t] == r.owner[t]
  }

  /** The steps of filling the new page table t of directory c: a temporary mapping of it at x, entries in t, and the
      temporary mapping gone. */
  ghost predicate Filled(p1: Ptes, p2: Ptes, p3: Ptes, now: Ptes, d: nat, c: nat, t: nat, x: Slot) {
    && x !in p1 && x.index < TABLE && x.table != c && x.table != d && Slot(d, TEMP_SLOT) in p2
    && p2 == With(p1, d, TEMP_SLOT, x.table, x.index, Pte(t, false, true, false))
    && p2[Slot(d, TEMP_SLOT)].frame == x.table
    && GrownIn(p2, p3, t) && now == Drop(p3, x)
  }

  /** Cloning slot s from directory d to c: a page table t for c, and its entries. */
  lemma GrownBy(p0: Ptes, p1: Ptes, p2: Ptes, p3: Ptes, now: Ptes, r: Roles, d: nat, c: nat, s: nat, t: nat, x: Slot)
    requires Slot(c, s) !in p0 && p1 == p0[Slot(c, s) := Pte(t, true, true, false)] && d != c
    requires Filled(p1, p2, p3, now, d, c, t, x)
    requires t in r.owner && r.owner[t] == (c, s) && t != c && t != d
    ensures Grown(p0, now, r, c, Slot(d, TEMP_SLOT))
    ensures Slot(c, s) in now && forall u: nat :: u != s ==> (Slot(c, u) in now <==> Slot(c, u) in p0)
    ensures TempRoom(now, d) && Slot(d, TEMP_SLOT) in now
  {
    var p4 := Drop(p3, x);
    hide Drop;
    assert x == Slot(x.table, x.index);
    forall k | k in p0 ensures k in p4 && p4[k].frame == p0[k].frame {
      assert k in p1 && k in p2 && k in p3;
    }
    forall k | k in p4 && k !in p0 ensures Belongs(r, k, c) || k == Slot(d, TEMP_SLOT) {
      if k in p2 {
        assert k in p1 || k == Slot(d, TEMP_SLOT);
      }
    }
    assert p4[Slot(d, TEMP_SLOT)].frame == x.table && Slot(x.table, x.index) !in p4;
  }

  lemma RoomStill(pte: Ptes, r: Roles, pinned: set<nat>, n: nat, d: nat, c: nat, s: nat, e: Pte)
    requires Shape(pte, r, pinned, n) && d in r.home && c in r.home && d != c
    ensures TempRoom(pte, d) <==> TempRoom(pte[Slot(c, s) := e], d)
    ensures TempCost(pte, d) == TempCost(pte[Slot(c, s) := e], d)
  {
    var now := pte[Slot(c, s) := e];
    if TempRoom(pte, d) && Slot(d, TEMP_SLOT) in pte {
      Walk(pte, r, pinned, n, d, TEMP_SLOT);
      var i: nat :| i < TABLE && Slot(pte[Slot(d, TEMP_SLOT)].frame, i) !in pte;
      assert Slot(now[Slot(d, TEMP_SLOT)].frame, i) !in now;
    }
  }

  /** The slots below e that have a page table when a clone of d comes to them: the temporary mapping for slot 0 gives d
      the one for such mappings. */
  ghost function ClonedSlots(pte: Ptes, d: nat, e: nat): set<nat> {
    set s | 0 <= s < e && (Slot(d, s) in pte || (s == TEMP_SLOT && Slot(d, 0) in pte))
  }

  /** The frames that cloning them takes: a page table each, and the one for temporary mappings, if d has none. */
  ghost function CloneCost(pte: Ptes, d: nat, e: nat): nat {
    var slots := ClonedSlots(pte, d, e);
    if slots == {} then 0 else |slots| + TempCost(pte, d)
  }

  lemma CloneCostStep(pte: Ptes, d: nat, s: nat)
    ensures ClonedSlots(pte, d, s + 1) == ClonedSlots(pte, d, s) + if s in ClonedSlots(pte, d, s + 1) then {s} else {}
    ensures s in ClonedSlots(pte, d, s + 1) ==>
      var first := if ClonedSlots(pte, d, s) == {} then TempCost(pte, d) else 0;
      CloneCost(pte, d, s + 1) == CloneCost(pte, d, s) + 1 + first
    ensures s !in ClonedSlots(pte, d, s + 1) ==> CloneCost(pte, d, s + 1) == CloneCost(pte, d, s)
  {
    assert s !in ClonedSlots(pte, d, s);
  }

  lemma {:induction false} CloneCostGrows(pte: Ptes, d: nat, s: nat, e: nat)
    requires s <= e
    ensures CloneCost(pte, d, s) <= CloneCost(pte, d, e)
    decreases e
  {
    if s < e {
      CloneCostGrows(pte, d, s, e - 1);
      CloneCostStep(pte, d, e - 1);
    }
  }

  /** The slots of d below s have been cloned, for their cost in frames. */
  ghost predicate Paid(was: Ptes, now: Ptes, d: nat, s: nat, before: nat, free: nat) {
    && free + CloneCost(was, d, s) == before
    && (if ClonedSlots(was, d, s) == {} then now == was
        else TempRoom(was, d) && TempRoom(now, d) && Slot(d, TEMP_SLOT) in now)
  }

  lemma PaidNone(pte: Ptes, d: nat, free: nat)
    ensures Paid(pte, pte, d, 0, free, free)
  {
  }

  /** Which slot comes next, and what happens there. */
  lemma PaidNext(was: Ptes, now: Ptes, d: nat, s: nat, before: nat, free: nat)
    requires Paid(was, now, d, s, before, free) && (s != TEMP_SLOT ==> (Slot(d, s) in now <==> Slot(d, s) in was))
    ensures s in ClonedSlots(was, d, s + 1) <==> Slot(d, s) in now
    ensures Slot(d, s) !in now ==> Paid(was, now, d, s + 1, before, free)
    ensures Slot(d, s) in now ==>
      CloneCost(was, d, s) + 1 + TempCost(now, d) == CloneCost(was, d, s + 1) && ClonedSlots(was, d, s + 1) != {}
    ensures Slot(d, s) in now && CopyFits(now, d, free) ==> TempRoom(was, d)
  {
    CloneCostStep(was, d, s);
    if s == TEMP_SLOT && ClonedSlots(was, d, s) != {} {
      var v :| v in ClonedSlots(was, d, s);
      assert v == 0;
    } else if s == TEMP_SLOT {
      assert 0 !in ClonedSlots(was, d, s);
    }
  }

  /** When it fails at slot s, it does so for want of frames, or of room for a temporary mapping at the first one. */
  lemma PaidOut(was: Ptes, now: Ptes, d: nat, s: nat, before: nat, free: nat)
    requires Paid(was, now, d, s, before, free) && (s != TEMP_SLOT ==> (Slot(d, s) in now <==> Slot(d, s) in was))
    requires Slot(d, s) in now && !CopyFits(now, d, free) && s < USER_SLOTS
    ensures CloneCost(was, d, USER_SLOTS) > 0 && !(TempRoom(was, d) && before >= CloneCost(was, d, USER_SLOTS))
    ensures free > 0 <==> before > 0 && !CopyFits(was, d, before)
  {
    PaidNext(was, now, d, s, before, free);
    CloneCostGrows(was, d, s + 1, USER_SLOTS);
    hide TempRoom;
    var n := |ClonedSlots(was, d, s)|;
    assert ClonedSlots(was, d, s) != {} ==> n > 0;
  }

  lemma PaidMore(was: Ptes, p1: Ptes, now: Ptes, d: nat, s: nat, before: nat, mid: nat, free: nat)
    requires Paid(was, p1, d, s, before, mid) && (s != TEMP_SLOT ==> (Slot(d, s) in p1 <==> Slot(d, s) in was))
    requires Slot(d, s) in p1 && CopyFits(p1, d, mid) && free + 1 + TempCost(p1, d) == mid
    requires TempRoom(now, d) && Slot(d, TEMP_SLOT) in now
    ensures Paid(was, now, d, s + 1, before, free)
  {
    PaidNext(was, p1, d, s, before, mid);
    hide TempRoom;
  }

  lemma PaidAll(was: Ptes, now: Ptes, d: nat, before: nat, free: nat)
    requires Paid(was, now, d, USER_SLOTS, before, free)
    ensures free + CloneCost(was, d, USER_SLOTS) == before
    ensures CloneCost(was, d, USER_SLOTS) > 0 ==> TempRoom(was, d) && CopyFits(was, d, before)
  {
    hide TempRoom;
    var n := |ClonedSlots(was, d, USER_SLOTS)|;
    assert ClonedSlots(was, d, USER_SLOTS) != {} ==> n > 0;
  }

  lemma OthersNone(dirs: map<nat, nat>, p: Ptes, data: seq<seq<byte>>, c: nat)
    ensures SameOthers(dirs, p, data, p, data, c)
  {
  }

  lemma OthersMore(dirs: map<nat, nat>, p0: Ptes, p1: Ptes, p2: Ptes, data: seq<seq<byte>>, d: nat, c: nat, s: nat)
    requires SameOthers(dirs, p0, data, p1, data, c) && SameButSlot(dirs, p1, data, p2, data, c, s)
    ensures SameOthers(dirs, p0, data, p2, data, c)
  {
  }

  lemma GrownTwice(p0: Ptes, p1: Ptes, p2: Ptes, r1: Roles, r2: Roles, c: nat, x: Slot)
    requires Grown(p0, p1, r1, c, x) && Grown(p1, p2, r2, c, x) && OwnersKept(r1, r2)
    ensures Grown(p0, p2, r2, c, x)
  {
  }

  /** A slot without page tables shows nothing, neither in the directory cloned nor in the clone. */
  lemma EmptySlots(p0: Ptes, p1: Ptes, data: seq<seq<byte>>, dirs: map<nat, nat>, d: nat, c: nat, s: nat)
    requires SameOthers(dirs, p0, data, p1, data, c) && d in dirs && d != c
    ensures s != TEMP_SLOT && Slot(d, s) !in p1 && Slot(c, s) !in p1 ==> Alike(p0, p1, data, d, c, s, TABLE)
  {
  }

  /** Slots cloned before stay, and slot s joins them. */
  lemma AlikeMore(dirs: map<nat, nat>, p0: Ptes, p1: Ptes, p2: Ptes, data: seq<seq<byte>>, d: nat, c: nat, s: nat)
    requires SameOthers(dirs, p0, data, p1, data, c) && SameButSlot(dirs, p1, data, p2, data, c, s)
    requires c in dirs && d in dirs && d != c
    ensures forall u: nat :: u != s && u != TEMP_SLOT && Alike(p0, p1, data, d, c, u, TABLE) ==>
      Alike(p0, p2, data, d, c, u, TABLE)
    ensures s != TEMP_SLOT && Alike(p1, p2, data, d, c, s, TABLE) ==> Alike(p0, p2, data, d, c, s, TABLE)
  {
  }

  /** The two directories show the same in every slot of the user half, and nothing outside it. */
  lemma AlikeAll(p0: Ptes, p1: Ptes, r: Roles, pinned: set<nat>, n: nat, data: seq<seq<byte>>, d: nat, c: nat)
    requires Shape(p1, r, pinned, n) && d in r.home && c in r.home && d != c &&
      SameOthers(r.home, p0, data, p1, data, c)
    requires forall u: nat :: u < USER_SLOTS && u != TEMP_SLOT ==> Alike(p0, p1, data, d, c, u, TABLE)
    ensures forall s: nat, i: nat :: s != TEMP_SLOT ==> Look(p1, data, c, s, i) == Look(p0, data, d, s, i)
  {
    forall s: nat, i: nat | s != TEMP_SLOT ensures Look(p1, data, c, s, i) == Look(p0, data, d, s, i) {
      assert Look(p1, data, d, s, i) == Look(p0, data, d, s, i);
      PastUser(p1, r, pinned, n, data, d, s, i);
      PastUser(p1, r, pinned, n, data, c, s, i);
      assert s < USER_SLOTS ==> Alike(p0, p1, data, d, c, s, TABLE);
    }
  }

  lemma PastUser(pte: Ptes, r: Roles, pinned: set<nat>, n: nat, data: seq<seq<byte>>, d: nat, s: nat, i: nat)
    requires Shape(pte, r, pinned, n) && d in r.home
    ensures s >= USER_SLOTS || i >= TABLE ==> Look(pte, data, d, s, i) == Unmapped
  {
    if Slot(d, s) in pte {
      Walk(pte, r, pinned, n, d, s);
      PastTable(pte, r, pinned, n, data, d, s);
    }
  }

  /** A page table is not mapped for the user. */
  lemma TableReadOnly(pte: Ptes, r: Roles, pinned: set<nat>, n: nat, t: nat)
    requires Shape(pte, r, pinned, n) && t in r.owner
    ensures t < n && t !in pinned && t !in r.home && ReadOnly(pte, r, t)
  {
    NotSys(pte, r, pinned, n, t);
    assert Owned(pte, r, t);
    forall m | m in pte && Leaf(r, m) && pte[m].user ensures pte[m].frame !in r.owner {
      InTable(pte, r, pinned, n, m);
    }
  }

  /** Sharing a page with another page table: its entry k becomes read-only, and m maps the same frame. */
  function WithShared(pte: Ptes, k: Slot, m: Slot): Ptes
    requires k in pte
  {
    pte[k := Shared(pte[k])][m := Shared(pte[k])]
  }

  /** The reference taken for a shared page becomes that of its second entry. */
  lemma BooksShared(pte: Ptes, rc: seq<nat>, free: seq<nat>, pinned: set<nat>, taken: set<nat>, held: multiset<nat>,
                    k: Slot, m: Slot)
    requires Books(pte, rc, free, pinned, taken, held) && k in pte && m !in pte && pte[k].frame in held
    ensures Books(WithShared(pte, k, m), rc, free, pinned, taken, held - multiset{pte[k].frame})
  {
    hide Books;
    var e := Shared(pte[k]);
    BooksRecolor(pte, rc, free, pinned, taken, held, k, e);
    BooksEnter(pte[k := e], rc, free, pinned, taken, held, m, e);
  }

  lemma ShapeShared(pte: Ptes, r: Roles, pinned: set<nat>, n: nat, data: seq<seq<byte>>, k: Slot, m: Slot)
    requires Shape(pte, r, pinned, n) && k in pte && m !in pte && Leaf(r, k) && Leaf(r, m) && m.index == k.index
    requires r.owner[k.table].1 == r.owner[m.table].1 && |data| == n
    ensures Shape(WithShared(pte, k, m), r, pinned, n)
    ensures
      var (c, s) := r.owner[m.table];
      && SameBut(r.home, pte, data, WithShared(pte, k, m), data, (c, s, m.index))
      && Look(WithShared(pte, k, m), data, c, s, m.index) == Page(pte, data, k)
  {
    var e := Shared(pte[k]);
    var mid := pte[k := e];
    InTable(pte, r, pinned, n, k);
    ShapeRecolor(pte, r, pinned, n, k, e);
    SharedReadOnly(mid, r, pinned, n, k);
    ShapeLeaf(mid, r, pinned, n, m, e);
    LookLeaf(pte, mid, r, pinned, n, data, k);
    LookLeaf(mid, mid[m := e], r, pinned, n, data, m);
    hide Shape, Look;
    var (d, s) := r.owner[k.table];
    ButSame(r.home, pte, data, mid, data, (d, s, k.index));
  }

  /** A new directory shows nothing, and nothing new to others. */
  lemma LookDirectory(pte: Ptes, r: Roles, pinned: set<nat>, n: nat, data: seq<seq<byte>>, i: nat, d: nat)
    requires Shape(pte, r, pinned, n) && Slot(r.sys, i) !in pte
    ensures Same(r.home, pte, data, pte[Slot(r.sys, i) := Pte(d, false, true, false)], data)
  {
    var now := pte[Slot(r.sys, i) := Pte(d, false, true, false)];
    forall e: nat, s: nat, j: nat | e in r.home ensures Look(now, data, e, s, j) == Look(pte, data, e, s, j) {
      NotSys(pte, r, pinned, n, e);
      if Slot(e, s) in pte {
        Walk(pte, r, pinned, n, e, s);
      }
    }
  }

  /** The entries outside table t up to index n. */
  function ClearedTo(pte: Ptes, t: nat, n: nat): Ptes {
    map k | k in pte && !(k.table == t && k.index < n) :: pte[k]
  }

  /** The entries outside table t, and without entry x. */
  function Cleared(pte: Ptes, t: nat, x: Slot): Ptes {
    map k | k in pte && k.table != t && k != x :: pte[k]
  }

  lemma ClearedNone(pte: Ptes, t: nat)
    ensures ClearedTo(pte, t, 0) == pte
  {
  }

  lemma ClearedMore(pte: Ptes, t: nat, n: nat)
    ensures
      var now := ClearedTo(pte, t, n);
      ClearedTo(pte, t, n + 1) == if Slot(t, n) in now then Drop(now, Slot(t, n)) else now
  {
  }

  lemma ClearedAll(p0: Ptes, p1: Ptes, r: Roles, pinned: set<nat>, n: nat, t: nat, x: Slot)
    requires Shape(p1, r, pinned, n) && t in r.owner && p1 == ClearedTo(p0, t, TABLE) && x.table != t && x in p0
    ensures x in p1 && p1[x] == p0[x] && (forall i: nat :: Slot(t, i) !in p1) && Drop(p1, x) == Cleared(p0, t, x)
  {
    forall i: nat ensures Slot(t, i) !in p1 {
      if Slot(t, i) in p1 {
        InTable(p1, r, pinned, n, Slot(t, i));
        assert false;
      }
    }
    forall k | k in p0 && k.table == t ensures k !in p1 {
      assert k == Slot(t, k.index);
    }
  }

  lemma ButOthers(dirs: map<nat, nat>, p0: Ptes, p1: Ptes, p2: Ptes, data: seq<seq<byte>>, d: nat, s: nat, i: nat)
    requires SameOthers(dirs, p0, data, p1, data, d) && SameBut(dirs, p1, data, p2, data, (d, s, i))
    ensures SameOthers(dirs, p0, data, p2, data, d)
  {
  }

  lemma SameMoreOthers(dirs: map<nat, nat>, p0: Ptes, p1: Ptes, p2: Ptes, data: seq<seq<byte>>, d: nat)
    requires SameOthers(dirs, p0, data, p1, data, d) && Same(dirs, p1, data, p2, data)
    ensures SameOthers(dirs, p0, data, p2, data, d)
  {
  }

  /** The entries that are not directory d's, nor the kernel's mapping of it. */
  function Foreign(pte: Ptes, r: Roles, d: nat): Ptes
    requires d in r.home
  {
    map k | k in pte && !Belongs(r, k, d) && k != Slot(r.sys, r.home[d]) :: pte[k]
  }

  /** An entry of directory d, or of its page tables, for a slot below s. */
  predicate BelongsBelow(r: Roles, k: Slot, d: nat, s: nat) {
    (k.table == d && k.index < s) || (k.table in r.owner && r.owner[k.table].0 == d && r.owner[k.table].1 < s)
  }

  /** What is left of the tables when directory d is cleared below slot s. */
  function LeftAt(pte: Ptes, r: Roles, d: nat, s: nat): Ptes {
    map k | k in pte && !BelongsBelow(r, k, d, s) :: pte[k]
  }

  ghost predicate OwnersLeft(r: Roles, q: Roles, d: nat, s: nat) {
    && q.home == r.home && q.sys == r.sys
    && (forall t :: t in q.owner <==> t in r.owner && !(r.owner[t].0 == d && r.owner[t].1 < s))
    && (forall t :: t in q.owner ==> q.owner[t] == r.owner[t])
  }

  lemma LeftAll(p0: Ptes, r: Roles, d: nat)
    ensures LeftAt(p0, r, d, 0) == p0 && OwnersLeft(r, r, d, 0)
  {
  }

  /** Clearing slot s of directory d. */
  lemma LeftLess(p0: Ptes, r0: Roles, pte: Ptes, r: Roles, pinned: set<nat>, n: nat, d: nat, s: nat)
    requires Shape(pte, r, pinned, n) && d in r.home && pte == LeftAt(p0, r0, d, s) && OwnersLeft(r0, r, d, s)
    ensures Slot(d, s) !in pte ==> LeftAt(p0, r0, d, s + 1) == pte && OwnersLeft(r0, r, d, s + 1)
    ensures Slot(d, s) in pte ==>
      var t := pte[Slot(d, s)].frame;
      && LeftAt(p0, r0, d, s + 1) == Cleared(pte, t, Slot(d, s))
      && forall q: Roles :: q.home == r.home && q.sys == r.sys && q.owner == Without(r.owner, t) ==>
        OwnersLeft(r0, q, d, s + 1)
  {
    hide Shape, LeftAt, Cleared;
    if Slot(d, s) in pte {
      Walk(pte, r, pinned, n, d, s);
    }
    OwnersAt(pte, r, pinned, n);
    LeftMap(p0, r0, pte, r, pinned, n, d, s);
    assert forall t :: t in r.owner && r.owner[t] == (d, s) ==> Slot(d, s) in pte && t == pte[Slot(d, s)].frame;
  }

  /** Every page table is named by the directory entry that owns it. */
  lemma OwnersAt(pte: Ptes, r: Roles, pinned: set<nat>, n: nat)
    requires Shape(pte, r, pinned, n)
    ensures forall t :: t in r.owner ==>
      Slot(r.owner[t].0, r.owner[t].1) in pte && pte[Slot(r.owner[t].0, r.owner[t].1)].frame == t
  {
    forall t | t in r.owner
      ensures Slot(r.owner[t].0, r.owner[t].1) in pte && pte[Slot(r.owner[t].0, r.owner[t].1)].frame == t {
      assert Owned(pte, r, t);
    }
  }

  lemma LeftMap(p0: Ptes, r0: Roles, pte: Ptes, r: Roles, pinned: set<nat>, n: nat, d: nat, s: nat)
    requires Shape(pte, r, pinned, n) && d in r.home && pte == LeftAt(p0, r0, d, s) && OwnersLeft(r0, r, d, s)
    ensures Slot(d, s) !in pte ==> LeftAt(p0, r0, d, s + 1) == pte
    ensures Slot(d, s) in pte ==> LeftAt(p0, r0, d, s + 1) == Cleared(pte, pte[Slot(d, s)].frame, Slot(d, s))
  {
    NotSys(pte, r, pinned, n, d);
    OwnersAt(pte, r, pinned, n);
    if Slot(d, s) in pte {
      Walk(pte, r, pinned, n, d, s);
    }
    hide Shape;
    forall k: Slot | k.table == d && k.index == s ensures k == Slot(d, s) {
    }
    assert forall t :: t in r.owner && r.owner[t] == (d, s) ==> Slot(d, s) in pte && t == pte[Slot(d, s)].frame;
    var now := LeftAt(p0, r0, d, s + 1);
    if Slot(d, s) in pte {
      assert forall k :: k in now <==> k in Cleared(pte, pte[Slot(d, s)].frame, Slot(d, s));
    } else {
      assert forall k :: k in now <==> k in pte;
    }
  }

  /** When all slots are cleared, the kernel's mapping of the directory is what is left to remove. */
  lemma LeftNone(p0: Ptes, r0: Roles, pte: Ptes, r: Roles, pinned: set<nat>, n: nat, d: nat)
    requires Shape(p0, r0, pinned, n) && Shape(pte, r, pinned, n) && d in r.home
    requires pte == LeftAt(p0, r0, d, USER_SLOTS) && OwnersLeft(r0, r, d, USER_SLOTS)
    ensures forall s: nat :: Slot(d, s) !in pte
    ensures Drop(pte, Slot(r.sys, r.home[d])) == Foreign(p0, r0, d)
  {
    NotSys(p0, r0, pinned, n, d);
    forall t | t in r0.owner ensures r0.owner[t].1 < USER_SLOTS && t != d {
      assert Owned(p0, r0, t);
    }
    forall k | k in p0 && k.table == d ensures k.index < USER_SLOTS {
      assert Placed(p0, r0, k);
    }
    assert forall k :: k in p0 ==> (BelongsBelow(r0, k, d, USER_SLOTS) <==> Belongs(r0, k, d));
  }

  lemma LookNoDirectory(pte: Ptes, r: Roles, pinned: set<nat>, n: nat, data: seq<seq<byte>>, d: nat)
    requires Shape(pte, r, pinned, n) && d in r.home
    ensures SameOthers(r.home, pte, data, Drop(pte, Slot(r.sys, r.home[d])), data, d)
  {
    hide Drop;
    var now := Drop(pte, Slot(r.sys, r.home[d]));
    forall e: nat, s: nat, j: nat | e in r.home ensures Look(now, data, e, s, j) == Look(pte, data, e, s, j) {
      NotSys(pte, r, pinned, n, e);
      if Slot(e, s) in pte {
        Walk(pte, r, pinned, n, e, s);
      }
    }
  }

  lemma OthersTwice(dirs: map<nat, nat>, p0: Ptes, p1: Ptes, p2: Ptes, data: seq<seq<byte>>, d: nat)
    requires SameOthers(dirs, p0, data, p1, data, d) && SameOthers(dirs, p1, data, p2, data, d)
    ensures SameOthers(dirs, p0, data, p2, data, d)
  {
  }

  lemma OwnersTwice(r: Roles, q: Roles, u: Roles)
    ensures OwnersKept(r, r)
    ensures OwnersKept(r, q) && OwnersKept(q, u) ==> OwnersKept(r, u)
  {
  }

  lemma GivenBackEntries(p0: Ptes, r0: Roles, p1: Ptes, r1: Roles, p2: Ptes, r2: Roles, pinned: set<nat>, n: nat,
                         c: nat, i: nat, x: Slot)
    requires Shape(p0, r0, pinned, n) && Shape(p2, r2, pinned, n)
    requires Slot(r0.sys, i) !in p0 && p1 == p0[Slot(r0.sys, i) := Pte(c, false, true, false)]
    requires c !in r0.home && r1 == r0.(home := r0.home[c := i]) && r2.home == r1.home && r2.sys == r1.sys &&
      OwnersKept(r1, r2)
    requires (forall s: nat :: Slot(c, s) !in p1) && Grown(p1, p2, r2, c, x)
    ensures forall k :: k in p0 ==> k in Foreign(p2, r2, c) && p2[k].frame == p0[k].frame
    ensures forall k :: k in Foreign(p2, r2, c) && k !in p0 ==> k == x
  {
    forall t | t in r0.owner ensures r0.owner[t].0 != c {
      assert Owned(p0, r0, t);
    }
    forall t | t in r2.owner ensures t !in r2.home && t != r2.sys {
      assert Owned(p2, r2, t);
      NotSys(p2, r2, pinned, n, t);
    }
    NotSys(p2, r2, pinned, n, c);
    forall k | k in p0 ensures !Belongs(r2, k, c) {
      assert Placed(p0, r0, k);
      assert k == Slot(k.table, k.index);
    }
  }

  /** After a directory c was made, cloned into and deleted, the entries are those before, and x if it is new. */
  lemma GivenBack(p0: Ptes, r0: Roles, p1: Ptes, r1: Roles, p2: Ptes, r2: Roles, pinned: set<nat>, n: nat,
                  c: nat, i: nat, x: Slot, f: nat)
    requires Shape(p0, r0, pinned, n) && Shape(p2, r2, pinned, n)
    requires Slot(r0.sys, i) !in p0 && p1 == p0[Slot(r0.sys, i) := Pte(c, false, true, false)]
    requires c !in r0.home && r1 == r0.(home := r0.home[c := i]) && r2.home == r1.home && r2.sys == r1.sys &&
      OwnersKept(r1, r2)
    requires (forall s: nat :: Slot(c, s) !in p1) && Grown(p1, p2, r2, c, x)
    ensures
      var p3 := Foreign(p2, r2, c);
      Count(p3, f) == Count(p0, f) + if x !in p0 && x in p3 && p3[x].frame == f then 1 else 0
  {
    hide Shape, Grown, OwnersKept, Belongs, Count;
    GivenBackEntries(p0, r0, p1, r1, p2, r2, pinned, n, c, i, x);
    CountMore(p0, Foreign(p2, r2, c), x, f);
  }

  /** Entries that are those before, with one more perhaps, name a frame as often as before, or once more. */
  lemma CountMore(p: Ptes, q: Ptes, x: Slot, f: nat)
    requires forall k :: k in p ==> k in q && q[k].frame == p[k].frame
    requires forall k :: k in q && k !in p ==> k == x
    ensures Count(q, f) == Count(p, f) + if x !in p && x in q && q[x].frame == f then 1 else 0
  {
    assert Naming(q, f) == Naming(p, f) + if x !in p && x in q && q[x].frame == f then {x} else {};
  }

  lemma SameAfterAll(dirs: map<nat, nat>, p0: Ptes, p1: Ptes, p2: Ptes, p3: Ptes, data: seq<seq<byte>>, c: nat, i: nat)
    requires Same(dirs, p0, data, p1, data) && c !in dirs
    requires SameOthers(dirs[c := i], p1, data, p2, data, c) && SameOthers(dirs[c := i], p2, data, p3, data, c)
    ensures Same(dirs, p0, data, p3, data) && WithoutHome(dirs[c := i], c) == dirs
  {
  }

  /** Page number g of the user half: its slot and index are g / TABLE and g % TABLE. */
  predicate IsUserPage(g: nat) {
    g / 1024 < USER_SLOTS && g / 1024 != TEMP_SLOT
  }

  /** Is page i of slot s of directory e one of the pages p..q of directory d? */
  predicate Among(e: nat, s: nat, i: nat, d: nat, p: nat, q: nat) {
    e == d && i < 1024 && p <= 1024 * s + i < q
  }

  /** All processes see what they saw, except for pages p..q of directory d. */
  ghost predicate SameOutside(dirs: map<nat, nat>, p0: Ptes, d0: seq<seq<byte>>, p1: Ptes, d1: seq<seq<byte>>,
                              d: nat, p: nat, q: nat) {
    forall e: nat, s: nat, i: nat :: e in dirs && s != TEMP_SLOT && !Among(e, s, i, d, p, q) ==>
      Look(p1, d1, e, s, i) == Look(p0, d0, e, s, i)
  }

  /** Page number g as directory d sees it. */
  function LookAt(pte: Ptes, data: seq<seq<byte>>, d: nat, g: nat): View {
    Look(pte, data, d, g / 1024, g % 1024)
  }

  /** A page mapped for the user, with these rights. */
  predicate MappedPage(v: View, rw: bool) {
    v.Mapped? && v.rw == rw
  }

  lemma OutsideNone(dirs: map<nat, nat>, p0: Ptes, d0: seq<seq<byte>>, d: nat, p: nat)
    ensures SameOutside(dirs, p0, d0, p0, d0, d, p, p)
  {
  }

  lemma OutsideMore(dirs: map<nat, nat>, p0: Ptes, d0: seq<seq<byte>>, p1: Ptes, d1: seq<seq<byte>>, p2: Ptes,
                    d2: seq<seq<byte>>, d: nat, p: nat, q: nat)
    requires SameOutside(dirs, p0, d0, p1, d1, d, p, q) && SameBut(dirs, p1, d1, p2, d2, (d, q / 1024, q % 1024)) &&
      p <= q
    ensures SameOutside(dirs, p0, d0, p2, d2, d, p, q + 1)
  {
  }

  /** Pages other than g are seen as before. */
  lemma OtherPages(dirs: map<nat, nat>, p1: Ptes, d1: seq<seq<byte>>, p2: Ptes, d2: seq<seq<byte>>, d: nat, g: nat,
                   h: nat)
    requires SameBut(dirs, p1, d1, p2, d2, (d, g / 1024, g % 1024)) && h != g && IsUserPage(h) && d in dirs
    ensures LookAt(p2, d2, d, h) == LookAt(p1, d1, d, h)
  {
  }

  /** A user's store: byte b at offset off of page i of slot s of directory d. */
  datatype Store = Store(d: nat, s: nat, i: nat, off: nat, b: byte)

  /** The page (d, s, i) after a store. */
  function After(w: Store, d: nat, s: nat, i: nat, v: View): View {
    if v.Mapped? && (w.d, w.s, w.i) == (d, s, i) && w.off < |v.bytes| then Mapped(v.bytes[w.off := w.b], v.rw) else v
  }
}
