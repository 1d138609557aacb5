/** Physical frames and the address spaces of processes: mapping, copy-on-write cloning and deletion. */
module AddressSpace {
  import opened Common
  import opened Paging

  /** Halt stands for KeBugCheck and ASSERT, after which the machine does not run on. */
  datatype Status = Success | NoMemory | Halt

  class Memory {
    const refCount: array<nat>
    const sys: nat                 // the kernel's table of system pages, one entry each
    var freeList: seq<nat>
    var pte: Ptes
    var data: seq<seq<byte>>       // contents of the frames that are not page tables
    ghost const pinned: set<nat>   // frames the kernel keeps without counting references
    ghost var roles: Roles
    ghost var taken: set<nat>      // frames off the free list without a reference yet
    ghost var held: multiset<nat>  // references taken by running code

    ghost predicate Booked()
      reads this, refCount
    {
      Books(pte, refCount[..], freeList, pinned, taken, held) == true
    }

    ghost predicate Valid()
      reads this, refCount
    {
      && |data| == refCount.Length
      && roles.sys == sys
      && Booked()
      && Shape(pte, roles, pinned, refCount.Length) == true
    }

    /** The memory after boot: the kernel has the frames below `first`, with the tables of its half of the address space
        among them, and the free list holds the others in order. */
    constructor (n: nat, first: nat, table: nat, ghost kernel: set<nat>)
      requires table < first <= n && forall f: nat :: f in kernel <==> f < first
      ensures Valid() && taken == {} && held == multiset{} && fresh(refCount)
      ensures refCount.Length == n && pte == map[] && roles == Roles(table, map[], map[])
      ensures pinned == kernel && |freeList| == n - first
    {
      refCount := new nat[n](f => if f < first then 1 else 0);
      sys, pte, data := table, map[], seq(n, f => seq(PAGE, b => 0));
      pinned, roles, taken, held := kernel, Roles(table, map[], map[]), {}, multiset{};
      freeList := seq(n - first, i requires 0 <= i < n - first => first + i);
      new;
      forall f: nat ensures f in freeList <==> InFree(refCount[..], pinned, {}, f) {
        if f >= first && f < n {
          assert freeList[f - first] == f;
        }
      }
    }

    /** MmAllocatePFN: takes the first free frame. */
    method AllocatePFN() returns (st: Status, f: nat)
      requires Booked()
      modifies this`freeList, this`taken
      ensures Booked()
      ensures st == if old(freeList) == [] then NoMemory else Success
      ensures st == NoMemory ==> freeList == old(freeList) && taken == old(taken)
      ensures st == Success ==>
        && f == old(freeList[0])
        && freeList == old(freeList)[1..]
        && f !in old(taken)
        && taken == old(taken) + {f}
        && f < refCount.Length && f !in pinned && refCount[f] == 0 && Count(pte, f) == 0
    {
      if freeList == [] {
        return NoMemory, 0;
      }
      BooksTake(pte, refCount[..], freeList, pinned, taken, held);
      f := freeList[0];
      freeList := freeList[1..];
      taken := taken + {f};
      st := Success;
    }

    /** MiIncReferencePFN, by code that takes a reference before it maps the frame. */
    method IncReference(f: nat)
      requires Booked() && f < refCount.Length && f !in pinned && (f in taken || refCount[f] > 0)
      modifies refCount, this`taken, this`held
      ensures Booked() && taken == old(taken) - {f} && held == old(held) + multiset{f}
      ensures refCount[..] == old(refCount[..])[f := old(refCount[f]) + 1]
    {
      BooksHold(pte, refCount[..], freeList, pinned, taken, held, f);
      refCount[f] := refCount[f] + 1;
      assert refCount[..] == old(refCount[..])[f := old(refCount[f]) + 1];
      taken, held := taken - {f}, held + multiset{f};
    }

    /** MiDecReferencePFN and MiFreePFN: gives up a reference; the last one puts the frame at the head of the free
        list. */
    method DecReference(f: nat)
      requires Booked() && f < refCount.Length && f !in pinned && f in held
      modifies refCount, this`freeList, this`held
      ensures Booked() && held == old(held) - multiset{f}
      ensures old(refCount[f]) > 0 && refCount[..] == old(refCount[..])[f := old(refCount[f]) - 1]
      ensures freeList == if old(refCount[f]) == 1 then [f] + old(freeList) else old(freeList)
    {
      BooksRelease(pte, refCount[..], freeList, pinned, taken, held, f);
      refCount[f] := refCount[f] - 1;
      assert refCount[..] == old(refCount[..])[f := old(refCount[f]) - 1];
      if refCount[f] == 0 {
        freeList := [f] + freeList;
      }
      held := held - multiset{f};
    }

    /** MiRemovePage: clears an entry and gives up its reference. */
    method RemovePage(k: Slot)
      requires Booked() && k in pte && pte[k].frame < refCount.Length && pte[k].frame !in pinned
      modifies refCount, this`freeList, this`pte, this`held
      ensures Booked() && pte == Drop(old(pte), k) && held == old(held)
      ensures old(refCount[pte[k].frame]) > 0
      ensures refCount[..] == old(refCount[..][pte[k].frame := refCount[pte[k].frame] - 1])
      ensures |freeList| == old(|freeList| + if refCount[pte[k].frame] == 1 then 1 else 0)
    {
      var f := pte[k].frame;
      BooksLeave(pte, refCount[..], freeList, pinned, taken, held, k);
      pte := Drop(pte, k);
      held := held + multiset{f};
      DecReference(f);
    }

    /** Puts a new entry that takes a reference. */
    method Enter(k: Slot, e: Pte)
      requires Booked() && k !in pte && e.frame < refCount.Length && e.frame !in pinned
      requires e.frame in taken || refCount[e.frame] > 0
      modifies refCount, this`pte, this`taken, this`held
      ensures Booked() && pte == old(pte)[k := e] && taken == old(taken) - {e.frame} && held == old(held)
      ensures refCount[..] == old(refCount[..])[e.frame := old(refCount[e.frame]) + 1]
    {
      hide Books;
      IncReference(e.frame);
      BooksEnter(pte, refCount[..], freeList, pinned, taken, held, k, e);
      pte := pte[k := e];
      held := held - multiset{e.frame};
    }

    /** Makes sure that slot s of directory d has a page table. */
    method NeedTable(d: nat, s: nat) returns (st: Status)
      requires Valid() && d in roles.home && s < USER_SLOTS
      modifies refCount, this`freeList, this`pte, this`taken, this`held, this`roles
      ensures Valid() && roles.home == old(roles.home) && roles.sys == old(roles.sys)
      ensures taken == old(taken) && held == old(held)
      ensures Same(roles.home, old(pte), data, pte, data)
      ensures OwnersKept(old(roles), roles)
      ensures st == Success || st == NoMemory
      ensures st == NoMemory ==> pte == old(pte) && roles == old(roles) && freeList == []
      ensures st == NoMemory <==> old(freeList) == [] && Slot(d, s) !in old(pte)
      ensures |freeList| + (if st == Success && Slot(d, s) !in old(pte) then 1 else 0) == old(|freeList|)
      ensures Slot(d, s) in old(pte) ==> freeList == old(freeList)
      ensures st == Success ==> Slot(d, s) in pte
      ensures Slot(d, s) in old(pte) ==>
        st == Success && pte == old(pte) && roles == old(roles) && refCount[..] == old(refCount[..])
      ensures st == Success && Slot(d, s) !in old(pte) ==>
        var t := pte[Slot(d, s)].frame;
        && pte == old(pte)[Slot(d, s) := Pte(t, true, true, false)]
        && roles.owner == old(roles.owner)[t := (d, s)]
        && t !in old(taken) && old(refCount[..])[t] == 0 && refCount[..] == old(refCount[..])[t := 1]
        && (forall i: nat :: Slot(t, i) !in old(pte))
    {
      hide Books;
      SameAgain(roles.home, pte, data);
      st := Success;
      if Slot(d, s) !in pte {
        var t;
        st, t := AllocatePFN();
        if st == NoMemory {
          return;
        }
        ShapeTable(pte, roles, pinned, refCount.Length, d, s, t);
        LookTable(pte, roles, pinned, refCount.Length, data, d, s, t);
        Enter(Slot(d, s), Pte(t, true, true, false));
        roles := roles.(owner := roles.owner[t := (d, s)]);
      }
    }

    /** Maps a page in an existing page table, over what was mapped there. */
    method PutPage(k: Slot, e: Pte)
      requires Valid() && Leaf(roles, k) && k.index < TABLE && (e.user <==> roles.owner[k.table].1 != TEMP_SLOT)
      requires e.frame < refCount.Length && e.frame !in pinned && e.frame !in roles.home && !(e.cow && e.writable)
      requires e.user ==> e.frame in taken
      requires !e.user ==> refCount[e.frame] > 0 && ReadOnly(pte, roles, e.frame) && k !in pte
      modifies refCount, this`freeList, this`pte, this`taken, this`held
      ensures Valid() && pte == old(pte)[k := e] && taken == old(taken) - {e.frame} && held == old(held)
      ensures SameBut(roles.home, old(pte), data, pte, data, (roles.owner[k.table].0, roles.owner[k.table].1, k.index))
      ensures |freeList| >= old(|freeList|) && (k !in old(pte) ==> freeList == old(freeList))
    {
      hide Same, SameBut, Books, Shape;
      ghost var p0 := pte;
      if k in pte {
        InTable(pte, roles, pinned, refCount.Length, k);
        ShapeUnmap(pte, roles, pinned, refCount.Length, k);
        RemovePage(k);
      }
      if e.user {
        Unnamed(pte, refCount[..], freeList, pinned, taken, held, e.frame);
        Fresh(pte, roles, pinned, refCount.Length, e.frame);
      }
      ShapeLeaf(pte, roles, pinned, refCount.Length, k, e);
      LookLeaf(p0, pte[k := e], roles, pinned, refCount.Length, data, k);
      Enter(k, e);
      assert pte == p0[k := e];
    }

    /** Is frame f mapped at page i of slot s of directory d? */
    predicate HasPage(d: nat, s: nat, i: nat, f: nat)
      reads `pte
    {
      && Slot(d, s) in pte
      && var k := Slot(pte[Slot(d, s)].frame, i);
         k in pte && pte[k].frame == f
    }

    /** MiInsertPage: maps frame f at page i of slot s of directory d, over what was mapped there; nothing to do if f is.
        Otherwise user pages get a frame just allocated, and the temporary slot maps a frame in use at an empty place. */
    method InsertPage(d: nat, s: nat, i: nat, f: nat, writable: bool) returns (st: Status)
      requires Valid() && d in roles.home && s < USER_SLOTS && i < TABLE
      requires HasPage(d, s, i, f) || (f < refCount.Length && f !in pinned && f !in roles.home)
      requires HasPage(d, s, i, f) || (s != TEMP_SLOT ==> f in taken)
      requires HasPage(d, s, i, f) || (s == TEMP_SLOT ==> refCount[f] > 0 && ReadOnly(pte, roles, f))
      requires HasPage(d, s, i, f) || (s == TEMP_SLOT && Slot(d, s) in pte ==> Slot(pte[Slot(d, s)].frame, i) !in pte)
      modifies refCount, this`freeList, this`pte, this`taken, this`held, this`roles
      ensures Valid() && roles.home == old(roles.home) && roles.sys == old(roles.sys) && held == old(held)
      ensures old(HasPage(d, s, i, f)) ==>
        st == Success && pte == old(pte) && taken == old(taken) && freeList == old(freeList) &&
          refCount[..] == old(refCount[..])
      ensures OwnersKept(old(roles), roles)
      ensures st == Success || st == NoMemory
      ensures st == NoMemory ==> pte == old(pte) && taken == old(taken) && roles == old(roles) && freeList == []
      ensures st == NoMemory <==> old(freeList) == [] && Slot(d, s) !in old(pte)
      ensures |freeList| + (if st == Success && Slot(d, s) !in old(pte) then 1 else 0) >= old(|freeList|)
      ensures s == TEMP_SLOT && st == Success ==>
        |freeList| + (if Slot(d, s) !in old(pte) then 1 else 0) == old(|freeList|)
      ensures st == Success && (Slot(d, s) in old(pte) ==> Slot(old(pte)[Slot(d, s)].frame, i) !in old(pte)) ==>
        |freeList| + (if Slot(d, s) !in old(pte) then 1 else 0) == old(|freeList|)
      ensures st == Success ==> Slot(d, s) in pte
      ensures st == Success && !old(HasPage(d, s, i, f)) ==>
        Inserted(old(pte), d, s, i, Pte(f, s != TEMP_SLOT, writable, false))
      ensures st == Success && !old(HasPage(d, s, i, f)) ==>
        taken == old(taken) - {f} && SameBut(roles.home, old(pte), data, pte, data, (d, s, i))
      ensures Slot(d, s) in old(pte) ==> st == Success && roles == old(roles)
      ensures st == Success ==> pte[Slot(d, s)].frame in roles.owner
      ensures st == Success && Slot(d, s) !in old(pte) ==> forall j: nat :: Slot(pte[Slot(d, s)].frame, j) !in old(pte)
      ensures st == Success ==> roles.owner == old(roles.owner)[pte[Slot(d, s)].frame := (d, s)]
    {
      hide Books, Shape, Same, SameBut;
      ghost var p0 := pte;
      st := NeedTable(d, s);
      if st == NoMemory {
        return;
      }
      ghost var p1 := pte;
      Walk(pte, roles, pinned, refCount.Length, d, s);
      // The original compares frame numbers, so it takes an empty entry for one that maps frame 0, which is the kernel's.
      if HasPage(d, s, i, f) {
        return;
      }
      if s == TEMP_SLOT {
        ReadOnlyStill(p0, p1, old(roles), roles, pinned, refCount.Length, d, s, f);
      }
      PutPage(Slot(pte[Slot(d, s)].frame, i), Pte(f, s != TEMP_SLOT, writable, false));
      ButTwice(roles.home, p0, data, p1, data, pte, data, (d, s, i));
    }

    /** From the old tables, entry e was put at page i of slot s of directory d, with a page table if need be. */
    ghost predicate Inserted(was: Ptes, d: nat, s: nat, i: nat, e: Pte)
      reads `pte
      requires Slot(d, s) in pte
    {
      && pte == With(was, d, s, pte[Slot(d, s)].frame, i, e)
      && (Slot(d, s) in was ==> pte[Slot(d, s)] == was[Slot(d, s)])
    }

    /** No code holds a frame outside the tables. */
    ghost predicate Quiet()
      reads this, refCount
    {
      Valid() && taken == {} && held == multiset{}
    }

    /** Removes a mapping. */
    method UnmapPage(k: Slot)
      requires Valid() && k in pte && Leaf(roles, k)
      modifies refCount, this`freeList, this`pte, this`held
      ensures Valid() && pte == Drop(old(pte), k) && held == old(held)
      ensures SameBut(roles.home, old(pte), data, pte, data, (roles.owner[k.table].0, roles.owner[k.table].1, k.index))
      ensures old(pte[k].frame < refCount.Length && refCount[pte[k].frame] > 0)
      ensures refCount[..] == old(refCount[..][pte[k].frame := refCount[pte[k].frame] - 1])
      ensures |freeList| == old(|freeList| + if refCount[pte[k].frame] == 1 then 1 else 0)
    {
      hide Books, Shape, SameBut;
      InTable(pte, roles, pinned, refCount.Length, k);
      ShapeUnmap(pte, roles, pinned, refCount.Length, k);
      LookLeaf(pte, Drop(pte, k), roles, pinned, refCount.Length, data, k);
      RemovePage(k);
    }

    /** MmMapPageTemp: maps frame f for the kernel at a free place of the temporary slot. */
    method MapPageTemp(d: nat, f: nat) returns (st: Status, i: nat)
      requires Valid() && taken == {} && d in roles.home
      requires f < refCount.Length && f !in pinned && f !in roles.home && refCount[f] > 0 && ReadOnly(pte, roles, f)
      modifies refCount, this`freeList, this`pte, this`taken, this`held, this`roles
      ensures Valid() && roles.home == old(roles.home) && roles.sys == old(roles.sys) && held == old(held) &&
        taken == {}
      ensures OwnersKept(old(roles), roles)
      ensures st == Success || st == NoMemory
      ensures st == Success <==> old(TempRoom(pte, d) && |freeList| >= TempCost(pte, d))
      ensures |freeList| + (if st == Success then TempCost(old(pte), d) else 0) == old(|freeList|)
      ensures st == NoMemory ==> pte == old(pte) && roles == old(roles) && (freeList == [] || !TempRoom(pte, d))
      ensures st == Success ==>
        && i < TABLE
        && Slot(d, TEMP_SLOT) in pte
        && Inserted(old(pte), d, TEMP_SLOT, i, Pte(f, false, true, false))
        && roles.owner == old(roles.owner)[pte[Slot(d, TEMP_SLOT)].frame := (d, TEMP_SLOT)]
        && Slot(pte[Slot(d, TEMP_SLOT)].frame, i) !in old(pte)
        && (Slot(d, TEMP_SLOT) in old(pte) ==> roles == old(roles))
      ensures st == Success && Slot(d, TEMP_SLOT) !in old(pte) ==> i == 0
      ensures st == Success && Slot(d, TEMP_SLOT) in old(pte) ==>
        forall j: nat :: j < i ==> Slot(old(pte)[Slot(d, TEMP_SLOT)].frame, j) in old(pte)
      ensures Same(roles.home, old(pte), data, pte, data)
    {
      hide Books, Shape, Same, SameBut, ReadOnly;
      SameAgain(roles.home, pte, data);
      i := 0;
      if Slot(d, TEMP_SLOT) !in pte {
        st := InsertPage(d, TEMP_SLOT, 0, f, true);
      } else {
        Walk(pte, roles, pinned, refCount.Length, d, TEMP_SLOT);
        var t := pte[Slot(d, TEMP_SLOT)].frame;
        while i < TABLE && Slot(t, i) in pte
          invariant i <= TABLE && forall j: nat :: j < i ==> Slot(t, j) in pte
        {
          i := i + 1;
        }
        if i == TABLE {
          return NoMemory, i;
        }
        st := InsertPage(d, TEMP_SLOT, i, f, true);
      }
      if st == Success {
        SameTemp(roles.home, old(pte), data, pte, data, (d, TEMP_SLOT, i));
      }
    }

    /** MmUnMapPageTemp. */
    method UnMapPageTemp(d: nat, i: nat)
      requires Valid() && d in roles.home && Slot(d, TEMP_SLOT) in pte && Slot(pte[Slot(d, TEMP_SLOT)].frame, i) in pte
      modifies refCount, this`freeList, this`pte, this`held
      ensures Valid() && pte == Drop(old(pte), Slot(old(pte)[Slot(d, TEMP_SLOT)].frame, i)) && held == old(held)
      ensures Same(roles.home, old(pte), data, pte, data)
      ensures
        var f := old(pte[Slot(pte[Slot(d, TEMP_SLOT)].frame, i)].frame);
        f < refCount.Length && |freeList| == old(|freeList| + if refCount[f] == 1 then 1 else 0)
    {
      hide Books, Shape, Same, SameBut;
      Walk(pte, roles, pinned, refCount.Length, d, TEMP_SLOT);
      UnmapPage(Slot(pte[Slot(d, TEMP_SLOT)].frame, i));
      SameTemp(roles.home, old(pte), data, pte, data, (d, TEMP_SLOT, i));
    }

    /** Allocates a frame and maps it for the user: one round of MmMapSegment and MmVirtualAlloc. */
    method MapPage(d: nat, s: nat, i: nat, writable: bool) returns (st: Status)
      requires Valid() && taken == {} && d in roles.home && s < USER_SLOTS && s != TEMP_SLOT && i < TABLE
      modifies refCount, this`freeList, this`pte, this`taken, this`held, this`roles
      ensures st == Success || st == Halt
      ensures st == Success <==> old(|freeList|) >= (if Slot(d, s) in old(pte) then 1 else 2)
      ensures |freeList| + 2 >= old(|freeList|)
      ensures st == Success ==> |freeList| + (if Slot(d, s) in old(pte) then 1 else 2) >= old(|freeList|)
      ensures st == Success && NoPage(old(pte), d, 1024 * s + i) ==>
        |freeList| + (if Slot(d, s) in old(pte) then 1 else 2) == old(|freeList|)
      ensures st == Success && Slot(d, s) !in old(pte) ==>
        forall j: nat :: Slot(d, s) in pte && Slot(pte[Slot(d, s)].frame, j) !in old(pte)
      ensures st == Success ==>
        && Valid() && roles.home == old(roles.home) && roles.sys == old(roles.sys) && held == old(held) && taken == {}
        && MappedAs(old(pte), d, s, i, writable)
        && roles.owner == old(roles.owner)[pte[Slot(d, s)].frame := (d, s)]
        && SameBut(roles.home, old(pte), data, pte, data, (d, s, i))
    {
      hide Books, Shape, SameBut;
      var f;
      st, f := AllocatePFN();
      if st == NoMemory {
        return Halt;
      }
      Fresh(pte, roles, pinned, refCount.Length, f);
      st := InsertPage(d, s, i, f, writable);
      if st == NoMemory {
        return Halt;
      }
    }

    /** Page i of slot s of directory d maps a frame for the user; the other entries are as before. */
    ghost predicate MappedAs(was: Ptes, d: nat, s: nat, i: nat, writable: bool)
      reads `pte
    {
      && Slot(d, s) in pte
      && var k := Slot(pte[Slot(d, s)].frame, i);
         k in pte && Inserted(was, d, s, i, pte[k]) && pte[k] == Pte(pte[k].frame, true, writable, false)
    }

    /** Takes the page at k out of its place and maps its frame temporarily. */
    method MoveAside(d: nat, k: Slot) returns (st: Status, j: nat)
      requires Quiet() && d in roles.home && k in pte && Leaf(roles, k) && pte[k].user && pte[k].cow
      requires pte[k].frame < refCount.Length && refCount[pte[k].frame] > 1
      modifies refCount, this`freeList, this`pte, this`taken, this`held, this`roles
      ensures Valid() && taken == {} && held == multiset{old(pte[k].frame)}
      ensures roles.home == old(roles.home) && roles.sys == old(roles.sys)
      ensures st == Success || st == NoMemory
      ensures st == Success <==> old(TempRoom(pte, d) && |freeList| >= TempCost(pte, d))
      ensures |freeList| + (if st == Success then TempCost(old(pte), d) else 0) == old(|freeList|)
      ensures st == Success ==>
        && Slot(d, TEMP_SLOT) in pte
        && pte[Slot(d, TEMP_SLOT)].frame in roles.owner
        && roles.owner == old(roles.owner)[pte[Slot(d, TEMP_SLOT)].frame := (d, TEMP_SLOT)]
        && Inserted(Drop(old(pte), k), d, TEMP_SLOT, j, Pte(old(pte[k].frame), false, true, false))
      ensures SameBut(roles.home, old(pte), data, pte, data, old((roles.owner[k.table].0, roles.owner[k.table].1, k.index)))
      ensures old(pte[k].frame < refCount.Length && pte[k].frame !in pinned)
    {
      hide Books, Shape, Same, SameBut, ReadOnly, TempRoom, TempCost;
      ghost var p0 := pte;
      InTable(pte, roles, pinned, refCount.Length, k);
      var f := pte[k].frame;
      SharedReadOnly(pte, roles, pinned, refCount.Length, k);
      DropReadOnly(pte, roles, k, f);
      TempStill(pte, Drop(pte, k), roles, pinned, refCount.Length, d, k);
      IncReference(f);
      UnmapPage(k);
      ghost var p1 := pte;
      st, j := MapPageTemp(d, f);
      ButTwice(roles.home, p0, data, p1, data, pte, data, old((roles.owner[k.table].0, roles.owner[k.table].1, k.index)));
    }

    /** Fills the page at k from frame f, and ends the temporary mapping of f. */
    method FillPage(d: nat, k: Slot, f: nat, j: nat)
      requires Valid() && WritableAt(k) && Leaf(roles, k) && f < refCount.Length && d in roles.home
      requires Slot(d, TEMP_SLOT) in pte && Slot(pte[Slot(d, TEMP_SLOT)].frame, j) in pte
      requires Slot(pte[Slot(d, TEMP_SLOT)].frame, j) != k
      modifies refCount, this`freeList, this`pte, this`held, this`data
      ensures Valid() && held == old(held) && pte == Drop(old(pte), old(Slot(pte[Slot(d, TEMP_SLOT)].frame, j)))
      ensures old(Pages()) ==> Pages()
      ensures
        var (e, s) := roles.owner[k.table];
        && SameBut(roles.home, old(pte), old(data), pte, data, (e, s, k.index))
        && (e in roles.home && s != TEMP_SLOT ==> Look(pte, data, e, s, k.index) == Mapped(old(data)[f], true))
    {
      hide Books, Shape;
      ghost var (e, s) := roles.owner[k.table];
      InTable(pte, roles, pinned, refCount.Length, k);
      LookWrite(pte, roles, pinned, refCount.Length, data, k, data[f]);
      data := data[pte[k].frame := data[f]];
      UnMapPageTemp(d, j);
    }

    /** Maps a frame of its own for page i of slot s of d, and fills it from frame f, which is mapped temporarily. */
    method NewCopy(d: nat, s: nat, i: nat, f: nat, j: nat) returns (st: Status)
      requires Valid() && taken == {} && held == multiset{f} && f < refCount.Length && f !in pinned
      requires d in roles.home && s < USER_SLOTS && s != TEMP_SLOT && i < TABLE && Slot(d, s) in pte
      requires Slot(d, TEMP_SLOT) in pte && Slot(pte[Slot(d, TEMP_SLOT)].frame, j) in pte
      modifies refCount, this`freeList, this`pte, this`taken, this`held, this`roles, this`data
      ensures st == Success || st == Halt
      ensures st == Success <==> old(freeList) != []
      ensures st == Success ==> Quiet() && roles.home == old(roles.home) && roles.sys == old(roles.sys)
      ensures st == Success ==> SameBut(roles.home, old(pte), old(data), pte, data, (d, s, i))
      ensures st == Success ==> Look(pte, data, d, s, i) == Mapped(old(data)[f], true)
      ensures st == Success ==> Slot(d, s) in pte && WritableAt(Slot(pte[Slot(d, s)].frame, i))
      ensures st == Success && old(Pages()) ==> Pages()
    {
      hide Books, Shape, Same, SameBut, Drop, Look;
      ghost var p1 := pte;
      Walk(pte, roles, pinned, refCount.Length, d, s);
      Walk(pte, roles, pinned, refCount.Length, d, TEMP_SLOT);
      st := MapPage(d, s, i, true);
      if st == Halt {
        return;
      }
      ghost var p2 := pte;
      FillPage(d, Slot(pte[Slot(d, s)].frame, i), f, j);
      DecReference(f);
      ButTwice(roles.home, p1, old(data), p2, old(data), pte, data, (d, s, i));
    }

    /** The copy of a shared copy-on-write page: a frame of its own for directory d. */
    method CopyPage(d: nat, s: nat, i: nat) returns (st: Status)
      requires Quiet() && d in roles.home && s < USER_SLOTS && s != TEMP_SLOT && i < TABLE && Slot(d, s) in pte
      requires
        var k := Slot(pte[Slot(d, s)].frame, i);
        k in pte && Leaf(roles, k) && pte[k].user && pte[k].cow && pte[k].frame < refCount.Length &&
          refCount[pte[k].frame] > 1
      modifies refCount, this`freeList, this`pte, this`taken, this`held, this`roles, this`data
      ensures st == Success || st == Halt
      ensures st == Success <==> old(CopyFits(pte, d, |freeList|))
      ensures st == Success ==> Quiet() && roles.home == old(roles.home) && roles.sys == old(roles.sys)
      ensures st == Success ==> Same(roles.home, old(pte), old(data), pte, data)
      ensures st == Success ==> Slot(d, s) in pte && WritableAt(Slot(pte[Slot(d, s)].frame, i))
      ensures st == Success && old(Pages()) ==> Pages()
    {
      hide Books, Shape, Same, SameBut, ReadOnly, TempRoom, TempCost, Drop;
      ghost var p0, x := pte, (d, s, i);
      Walk(pte, roles, pinned, refCount.Length, d, s);
      var k := Slot(pte[Slot(d, s)].frame, i);
      var f := pte[k].frame;
      var j;
      st, j := MoveAside(d, k);
      if st == NoMemory {
        return Halt;
      }
      ghost var p1 := pte;
      st := NewCopy(d, s, i, f, j);
      if st == Halt {
        return;
      }
      ButTwice(roles.home, p0, old(data), p1, old(data), pte, data, x);
      ButSame(roles.home, p0, old(data), pte, data, x);
    }

    /** MmPfHandler, for a fault of directory d on a user page: makes a copy-on-write page writable. */
    method PfHandler(d: nat, s: nat, i: nat) returns (st: Status)
      requires Quiet() && d in roles.home && s < USER_SLOTS && s != TEMP_SLOT && i < TABLE
      modifies refCount, this`freeList, this`pte, this`taken, this`held, this`roles, this`data
      ensures st == Success || st == Halt
      ensures st == Success <==> old(CowAt(d, s, i) && (SharedAt(pte, d, s, i) ==> CopyFits(pte, d, |freeList|)))
      ensures st == Success ==> Quiet() && roles.home == old(roles.home) && roles.sys == old(roles.sys)
      ensures st == Success ==> Same(roles.home, old(pte), old(data), pte, data)
      ensures st == Success ==> Slot(d, s) in pte && WritableAt(Slot(pte[Slot(d, s)].frame, i))
      ensures st == Success && old(Pages()) ==> Pages()
    {
      hide Books, Shape, Same, SameBut, CopyFits;
      if Slot(d, s) !in pte {
        return Halt;
      }
      Walk(pte, roles, pinned, refCount.Length, d, s);
      var k := Slot(pte[Slot(d, s)].frame, i);
      if k !in pte {
        return Halt;
      }
      if !pte[k].cow {
        return Halt;
      }
      InTable(pte, roles, pinned, refCount.Length, k);
      OneReference(pte, refCount[..], freeList, pinned, taken, k);
      if refCount[pte[k].frame] == 1 {
        var e := pte[k].(cow := false, writable := true);
        ShapeRecolor(pte, roles, pinned, refCount.Length, k, e);
        BooksRecolor(pte, refCount[..], freeList, pinned, taken, held, k, e);
        LookLeaf(pte, pte[k := e], roles, pinned, refCount.Length, data, k);
        ButSame(roles.home, pte, data, pte[k := e], data, (d, s, i));
        pte := pte[k := e];
        st := Success;
      } else {
        st := CopyPage(d, s, i);
      }
    }

    /** Is page i of slot s of directory d mapped copy-on-write? */
    predicate CowAt(d: nat, s: nat, i: nat)
      reads `pte
    {
      && Slot(d, s) in pte
      && var k := Slot(pte[Slot(d, s)].frame, i);
         k in pte && pte[k].cow
    }

    /** A user-mode store of the process with directory d: to a page mapped writable, or after a page fault. */
    method UserWrite(w: Store) returns (st: Status)
      requires Quiet() && Pages() && w.d in roles.home && w.s < USER_SLOTS && w.s != TEMP_SLOT && w.i < TABLE &&
        w.off < PAGE
      modifies refCount, this`freeList, this`pte, this`taken, this`held, this`roles, this`data
      ensures st == Success || st == Halt
      ensures st == Success <==> old(Allowed(w) && (SharedAt(pte, w.d, w.s, w.i) ==> CopyFits(pte, w.d, |freeList|)))
      ensures st == Success ==> Quiet() && Pages() && roles.home == old(roles.home) && roles.sys == old(roles.sys)
      ensures st == Success ==> Written(old(pte), old(data), w)
    {
      hide Books, Shape, CopyFits;
      SameAgain(roles.home, pte, data);
      if Slot(w.d, w.s) !in pte {
        return Halt;
      }
      Walk(pte, roles, pinned, refCount.Length, w.d, w.s);
      var k := Slot(pte[Slot(w.d, w.s)].frame, w.i);
      if k !in pte {
        return Halt;
      }
      InTable(pte, roles, pinned, refCount.Length, k);
      if !pte[k].writable {
        st := PfHandler(w.d, w.s, w.i);
        if st == Halt {
          return;
        }
        Walk(pte, roles, pinned, refCount.Length, w.d, w.s);
        k := Slot(pte[Slot(w.d, w.s)].frame, w.i);
        InTable(pte, roles, pinned, refCount.Length, k);
      }
      var page := data[pte[k].frame];
      LookWrite(pte, roles, pinned, refCount.Length, data, k, page[w.off := w.b]);
      data := data[pte[k].frame := page[w.off := w.b]];
      st := Success;
    }

    ghost predicate Pages()
      reads `data
    {
      forall f :: 0 <= f < |data| ==> |data[f]| == PAGE
    }

    /** May the process write there? */
    ghost predicate Allowed(w: Store)
      reads `pte, `data
    {
      var v := Look(pte, data, w.d, w.s, w.i);
      v.Mapped? && v.rw
    }

    /** From the old state, the store shows at its page, and nowhere else. */
    ghost predicate Written(p: Ptes, m: seq<seq<byte>>, w: Store)
      reads `pte, `data, `roles
    {
      forall d: nat, s: nat, i: nat :: d in roles.home && s != TEMP_SLOT ==>
        Look(pte, data, d, s, i) == After(w, d, s, i, Look(p, m, d, s, i))
    }

    /** One page of MmCloneProcessAddressSpace: m maps what k maps, both copy-on-write if k was writable. */
    method ClonePage(k: Slot, m: Slot)
      requires Quiet() && k in pte && m !in pte && Leaf(roles, k) && Leaf(roles, m) && m.index == k.index
      requires roles.owner[k.table].1 == roles.owner[m.table].1
      modifies refCount, this`pte, this`taken, this`held
      ensures Quiet() && pte == WithShared(old(pte), k, m)
      ensures
        var (c, s) := roles.owner[m.table];
        && SameBut(roles.home, old(pte), data, pte, data, (c, s, m.index))
        && Look(pte, data, c, s, m.index) == Page(old(pte), data, k)
    {
      hide Books, Shape, SameBut, Look, Page, Count, Exclusive, WithShared;
      InTable(pte, roles, pinned, refCount.Length, k);
      ShapeShared(pte, roles, pinned, refCount.Length, data, k, m);
      OneReference(pte, refCount[..], freeList, pinned, taken, k);
      IncReference(pte[k].frame);
      BooksShared(pte, refCount[..], freeList, pinned, taken, held, k, m);
      held := held - multiset{pte[k].frame};
      CopyEntry(k, m);
    }

    /** Copies the entry at k to m, copy-on-write both if it was writable. */
    method CopyEntry(k: Slot, m: Slot)
      requires k in pte && m !in pte && !(pte[k].cow && pte[k].writable)
      modifies this`pte
      ensures pte == WithShared(old(pte), k, m)
    {
      if pte[k].cow {
        pte := pte[m := pte[k]];
      } else if pte[k].writable {
        pte := pte[k := pte[k].(writable := false, cow := true)];
        pte := pte[m := pte[k]];
      } else {
        pte := pte[m := pte[k]];
      }
    }

    /** The page loop of MmCloneProcessAddressSpace for slot s, from directory d to the empty page table of c. */
    method CloneEntries(d: nat, c: nat, s: nat)
      requires Quiet() && d in roles.home && c in roles.home && d != c && Slot(d, s) in pte && Slot(c, s) in pte
      requires forall i: nat :: Slot(pte[Slot(c, s)].frame, i) !in pte
      modifies refCount, this`pte, this`taken, this`held
      ensures Quiet() && GrownIn(old(pte), pte, old(pte[Slot(c, s)].frame))
      ensures SameButSlot(roles.home, old(pte), data, pte, data, c, s)
      ensures s != TEMP_SLOT ==> Alike(old(pte), pte, data, d, c, s, TABLE)
    {
      hide Books, Shape, SameBut, SameButSlot, Look;
      ghost var p0 := pte;
      Walk(pte, roles, pinned, refCount.Length, d, s);
      Walk(pte, roles, pinned, refCount.Length, c, s);
      var from, to := pte[Slot(d, s)].frame, pte[Slot(c, s)].frame;
      ButSlotNone(roles.home, pte, data, c, s);
      var i := 0;
      while i < TABLE
        invariant i <= TABLE && Quiet() && GrownIn(p0, pte, to)
        invariant forall j: nat :: j >= i ==> Slot(to, j) !in pte
        invariant SameButSlot(roles.home, p0, data, pte, data, c, s)
        invariant s != TEMP_SLOT ==> Alike(p0, pte, data, d, c, s, i)
      {
        ghost var p1 := pte;
        SlotLooks(p0, p1, roles, pinned, refCount.Length, data, d, c, s, i);
        if Slot(from, i) in pte {
          ClonePage(Slot(from, i), Slot(to, i));
          ButSlot(roles.home, p0, data, p1, data, pte, data, c, s, i);
        }
        i := i + 1;
      }
    }

    /** Maps the new page table of slot s of c temporarily, and fills it with what d has there. */
    method FillTable(d: nat, c: nat, s: nat) returns (st: Status, ghost p2: Ptes, ghost p3: Ptes, ghost x: Slot)
      requires Quiet() && d in roles.home && c in roles.home && d != c && Slot(d, s) in pte && Slot(c, s) in pte
      requires forall i: nat :: Slot(pte[Slot(c, s)].frame, i) !in pte
      modifies refCount, this`freeList, this`pte, this`taken, this`held, this`roles
      ensures Quiet() && roles.home == old(roles.home) && roles.sys == old(roles.sys)
      ensures st == Success || st == NoMemory
      ensures st == Success <==> old(TempRoom(pte, d) && |freeList| >= TempCost(pte, d))
      ensures |freeList| + (if st == Success then TempCost(old(pte), d) else 0) == old(|freeList|)
      ensures st == NoMemory ==> (freeList == [] || !old(TempRoom(pte, d))) && pte == old(pte)
      ensures SameButSlot(roles.home, old(pte), data, pte, data, c, s)
      ensures st == Success ==>
        OwnersKept(old(roles), roles) && (s != TEMP_SLOT ==> Alike(old(pte), pte, data, d, c, s, TABLE))
      ensures st == Success ==> Filled(old(pte), p2, p3, pte, d, c, old(pte[Slot(c, s)].frame), x)
    {
      hide Books, Shape, Same, SameBut, SameButSlot, Look, TempRoom, ReadOnly, Alike, Count;
      p3, x := pte, Slot(d, s);
      ghost var p1 := pte;
      Walk(pte, roles, pinned, refCount.Length, c, s);
      var t := pte[Slot(c, s)].frame;
      TableReadOnly(pte, roles, pinned, refCount.Length, t);
      OneReference(pte, refCount[..], freeList, pinned, taken, Slot(c, s));
      var j;
      st, j := MapPageTemp(d, t);
      p2 := pte;
      SameSlot(roles.home, p1, data, p2, data, c, s);
      if st == NoMemory {
        return;
      }
      Walk(pte, roles, pinned, refCount.Length, d, TEMP_SLOT);
      Walk(pte, roles, pinned, refCount.Length, c, s);
      CloneEntries(d, c, s);
      p3 := pte;
      x := Slot(pte[Slot(d, TEMP_SLOT)].frame, j);
      TwoReferences(pte, refCount[..], freeList, pinned, taken, held, x, Slot(c, s));
      UnMapPageTemp(d, j);
      SlotCloned(roles.home, p1, p2, p3, pte, data, d, c, s);
    }

    /** MmCloneProcessAddressSpace for slot s of directory d, which has a page table: a new page table for c with the
        same mappings. */
    method CloneTable(d: nat, c: nat, s: nat) returns (st: Status)
      requires Quiet() && d in roles.home && c in roles.home && d != c
      requires s < USER_SLOTS && Slot(d, s) in pte && Slot(c, s) !in pte
      modifies refCount, this`freeList, this`pte, this`taken, this`held, this`roles
      ensures Quiet() && roles.home == old(roles.home) && roles.sys == old(roles.sys)
      ensures st == Success <==> old(CopyFits(pte, d, |freeList|))
      ensures st == NoMemory <==> old(freeList) == []
      ensures st == Success ==> Slot(d, TEMP_SLOT) in pte && TempRoom(pte, d)
      ensures st == Success ==> |freeList| + 1 + TempCost(old(pte), d) == old(|freeList|)
      ensures st == NoMemory ==> freeList == []
      ensures st == Halt ==> freeList == [] || !old(TempRoom(pte, d))
      ensures SameButSlot(roles.home, old(pte), data, pte, data, c, s)
      ensures st != Halt ==> Grown(old(pte), pte, roles, c, Slot(d, TEMP_SLOT)) && OwnersKept(old(roles), roles)
      ensures forall u: nat :: u != s ==> (Slot(c, u) in pte <==> Slot(c, u) in old(pte))
      ensures st == Success ==> Slot(c, s) in pte
      ensures st == Success && s != TEMP_SLOT ==> Alike(old(pte), pte, data, d, c, s, TABLE)
    {
      hide Books, Shape, Same, SameBut, SameButSlot, Look, TempRoom, Grown, Filled;
      ghost var p0 := pte;
      st := NeedTable(c, s);
      ButSlotNone(roles.home, p0, data, c, s);
      GrownNone(p0, old(roles), c, Slot(d, TEMP_SLOT));
      if st == NoMemory {
        return;
      }
      ghost var p1 := pte;
      RoomStill(p0, old(roles), pinned, refCount.Length, d, c, s, pte[Slot(c, s)]);
      SameSlot(roles.home, p0, data, p1, data, c, s);
      Walk(pte, roles, pinned, refCount.Length, c, s);
      ghost var p2, p3, x;
      st, p2, p3, x := FillTable(d, c, s);
      SlotTwice(roles.home, p0, data, p1, data, pte, data, c, s);
      if st == NoMemory {
        return Halt;
      }
      GrownBy(p0, p1, p2, p3, pte, roles, d, c, s, p1[Slot(c, s)].frame, x);
      SameAgain(roles.home, pte, data);
      AlikeStill(roles.home, p0, p1, pte, pte, data, d, c, s);
    }

    /** MmCloneProcessAddressSpace: the process with the empty directory c comes to see what d sees. NoMemory leaves
        what was cloned so far; in every case the other processes, d among them, see what they saw, and no entry is
        lost. */
    method Clone(d: nat, c: nat) returns (st: Status)
      requires Quiet() && d in roles.home && c in roles.home && d != c && forall s: nat :: Slot(c, s) !in pte
      modifies refCount, this`freeList, this`pte, this`taken, this`held, this`roles
      ensures Quiet() && roles.home == old(roles.home) && roles.sys == old(roles.sys)
      ensures
        var cost := CloneCost(old(pte), d, USER_SLOTS);
        && (st == Success <==> old(cost == 0 || (TempRoom(pte, d) && |freeList| >= cost)))
        && (st == Halt <==> old(cost > 0 && freeList != [] && !CopyFits(pte, d, |freeList|)))
        && (st == Success ==> |freeList| + cost == old(|freeList|))
      ensures st == NoMemory ==> freeList == []
      ensures SameOthers(roles.home, old(pte), data, pte, data, c)
      ensures st == Success ==>
        forall s: nat, i: nat :: s != TEMP_SLOT ==> Look(pte, data, c, s, i) == old(Look(pte, data, d, s, i))
      ensures st != Halt ==> Grown(old(pte), pte, roles, c, Slot(d, TEMP_SLOT)) && OwnersKept(old(roles), roles)
      ensures forall s: nat :: s != TEMP_SLOT && Slot(c, s) in pte ==> Slot(d, s) in old(pte)
      ensures st == Success ==> forall s: nat :: s < USER_SLOTS && Slot(d, s) in old(pte) ==> Slot(c, s) in pte
    {
      hide Books, Shape, SameButSlot, SameOthers, Look, TempRoom, Grown, Alike, OwnersKept, Paid, CloneCost, CopyFits;
      ghost var p0, r0 := pte, roles;
      OthersNone(roles.home, p0, data, c);
      GrownNone(p0, r0, c, Slot(d, TEMP_SLOT));
      OwnersTwice(r0, r0, r0);
      PaidNone(p0, d, |freeList|);
      var s := 0;
      while s < USER_SLOTS
        invariant s <= USER_SLOTS && Quiet() && roles.home == r0.home && roles.sys == r0.sys
        invariant SameOthers(roles.home, p0, data, pte, data, c) && Grown(p0, pte, roles, c, Slot(d, TEMP_SLOT))
        invariant forall u: nat :: u >= s ==> Slot(c, u) !in pte
        invariant forall u: nat :: u < s && u != TEMP_SLOT ==> Alike(p0, pte, data, d, c, u, TABLE)
        invariant Paid(p0, pte, d, s, old(|freeList|), |freeList|)
        invariant OwnersKept(r0, roles)
        invariant forall u: nat :: u != TEMP_SLOT && Slot(c, u) in pte ==> Slot(d, u) in p0
        invariant forall u: nat :: u < s && Slot(d, u) in p0 ==> Slot(c, u) in pte
      {
        ghost var p1, r1 := pte, roles;
        EmptySlots(p0, p1, data, roles.home, d, c, s);
        SlotsOf(p0, p1, roles, pinned, refCount.Length, d, c, s);
        PaidNext(p0, p1, d, s, old(|freeList|), |freeList|);
        if Slot(d, s) in pte {
          ghost var free := |freeList|;
          st := CloneTable(d, c, s);
          OthersMore(roles.home, p0, p1, pte, data, d, c, s);
          if st != Success {
            PaidOut(p0, p1, d, s, old(|freeList|), free);
          }
          if st == Halt {
            return;
          }
          GrownTwice(p0, p1, pte, r1, roles, c, Slot(d, TEMP_SLOT));
          OwnersTwice(r0, r1, roles);
          if st == NoMemory {
            return;
          }
          AlikeMore(roles.home, p0, p1, pte, data, d, c, s);
          PaidMore(p0, p1, pte, d, s, old(|freeList|), free, |freeList|);
        }
        s := s + 1;
      }
      PaidAll(p0, pte, d, old(|freeList|), |freeList|);
      AlikeAll(p0, pte, roles, pinned, refCount.Length, data, d, c);
      st := Success;
    }

    /** MmCreateProcessAddressSpace: a directory with an empty user half, mapped for the kernel at system page i. */
    method Create(i: nat) returns (st: Status, d: nat)
      requires Quiet() && Slot(sys, i) !in pte
      modifies refCount, this`freeList, this`pte, this`taken, this`held, this`roles
      ensures Quiet()
      ensures st == if old(freeList) == [] then NoMemory else Success
      ensures st == NoMemory ==> pte == old(pte) && roles == old(roles) && freeList == old(freeList)
      ensures st == Success ==>
        && d !in old(roles.home)
        && roles == old(roles).(home := old(roles).home[d := i])
        && pte == old(pte)[Slot(sys, i) := Pte(d, false, true, false)]
        && (forall s: nat :: Slot(d, s) !in pte)
        && Same(old(roles.home), old(pte), data, pte, data)
    {
      hide Books, Shape, Same;
      st, d := AllocatePFN();
      if st == NoMemory {
        return;
      }
      ShapeDirectory(pte, roles, pinned, refCount.Length, i, d);
      LookDirectory(pte, roles, pinned, refCount.Length, data, i, d);
      Enter(Slot(sys, i), Pte(d, false, true, false));
      roles := roles.(home := roles.home[d := i]);
    }

    /** The page loop of MmDeleteProcessAddressSpace for slot s of directory d, then its page table, whose entry is
        reached through the self-map. */
    method DeleteTable(d: nat, s: nat)
      requires Quiet() && d in roles.home && Slot(d, s) in pte
      modifies refCount, this`freeList, this`pte, this`held, this`roles
      ensures Quiet() && roles.home == old(roles.home)
      ensures roles.owner == Without(old(roles.owner), old(pte[Slot(d, s)].frame))
      ensures pte == Cleared(old(pte), old(pte[Slot(d, s)].frame), Slot(d, s))
      ensures SameOthers(roles.home, old(pte), data, pte, data, d)
    {
      hide Books, Shape, Same, SameBut, SameOthers, Cleared, Drop;
      ghost var p0 := pte;
      Walk(pte, roles, pinned, refCount.Length, d, s);
      var t := pte[Slot(d, s)].frame;
      OthersNone(roles.home, pte, data, d);
      ClearedNone(p0, t);
      var i := 0;
      while i < TABLE
        invariant i <= TABLE && Quiet() && roles == old(roles) && pte == ClearedTo(p0, t, i)
        invariant SameOthers(roles.home, p0, data, pte, data, d)
      {
        ghost var p1 := pte;
        ClearedMore(p0, t, i);
        if Slot(t, i) in pte {
          UnmapPage(Slot(t, i));
          ButOthers(roles.home, p0, p1, pte, data, d, s, i);
        }
        i := i + 1;
      }
      ClearedAll(p0, pte, roles, pinned, refCount.Length, t, Slot(d, s));
      Walk(pte, roles, pinned, refCount.Length, d, s);
      NotSys(pte, roles, pinned, refCount.Length, t);
      ShapeNoTable(pte, roles, pinned, refCount.Length, d, s);
      LookNoTable(pte, roles, pinned, refCount.Length, data, d, s);
      ghost var p2 := pte;
      RemovePage(Slot(d, s));
      roles := roles.(owner := Without(roles.owner, t));
      SameMoreOthers(roles.home, p0, p2, pte, data, d);
    }

    /** MmDeleteProcessAddressSpace: takes away everything the process mapped, its page tables, and its directory,
        which the kernel maps at system page i. */
    method Delete(d: nat, i: nat)
      requires Quiet() && d in roles.home && i == roles.home[d]
      modifies refCount, this`freeList, this`pte, this`held, this`roles
      ensures Quiet() && roles.home == WithoutHome(old(roles.home), d)
      ensures pte == Foreign(old(pte), old(roles), d)
      ensures SameOthers(old(roles.home), old(pte), data, pte, data, d)
    {
      hide Books, Shape, Same, SameBut, SameOthers, Cleared, Drop, LeftAt, OwnersLeft, Foreign;
      ghost var p0, r0 := pte, roles;
      OthersNone(roles.home, pte, data, d);
      LeftAll(p0, r0, d);
      var s := 0;
      while s < USER_SLOTS
        invariant s <= USER_SLOTS && Quiet() && roles.home == r0.home
        invariant pte == LeftAt(p0, r0, d, s) && OwnersLeft(r0, roles, d, s)
        invariant SameOthers(roles.home, p0, data, pte, data, d)
      {
        ghost var p1 := pte;
        LeftLess(p0, r0, pte, roles, pinned, refCount.Length, d, s);
        if Slot(d, s) in pte {
          DeleteTable(d, s);
          OthersTwice(roles.home, p0, p1, pte, data, d);
        }
        s := s + 1;
      }
      LeftNone(p0, r0, pte, roles, pinned, refCount.Length, d);
      ShapeNoDirectory(pte, roles, pinned, refCount.Length, d);
      NotSys(pte, roles, pinned, refCount.Length, d);
      ghost var p2 := pte;
      LookNoDirectory(pte, roles, pinned, refCount.Length, data, d);
      RemovePage(Slot(sys, i));
      roles := roles.(home := WithoutHome(roles.home, d));
      OthersTwice(r0.home, p0, p2, pte, data, d);
    }

    /** MmMapSegment and MmVirtualAlloc in the user half: frames of their own for pages p..p + count. */
    method MapSegment(d: nat, p: nat, count: nat, writable: bool) returns (st: Status)
      requires Quiet() && d in roles.home && forall g :: p <= g < p + count ==> IsUserPage(g)
      modifies refCount, this`freeList, this`pte, this`taken, this`held, this`roles
      ensures st == Success || st == Halt
      ensures old(|freeList| >= Frames(pte, d, p, p + count)) ==> st == Success
      ensures old(forall g :: p <= g < p + count ==> NoPage(pte, d, g)) ==>
        (st == Success <==> old(|freeList| >= Frames(pte, d, p, p + count)))
      ensures st == Success ==> Quiet() && roles.home == old(roles.home) && roles.sys == old(roles.sys)
      ensures st == Success ==> forall g :: p <= g < p + count ==> MappedPage(LookAt(pte, data, d, g), writable)
      ensures st == Success ==> SameOutside(roles.home, old(pte), data, pte, data, d, p, p + count)
    {
      hide Books, Shape, Same, SameBut, SameOutside, Look, LookAt, Memory.Valid, Frames, NoPage;
      OutsideNone(roles.home, pte, data, d, p);
      st := Success;
      var q := p;
      ghost var e, extra := p + count, |freeList| - Frames(pte, d, p, p + count);
      ghost var empty := forall g :: p <= g < e ==> NoPage(pte, d, g);
      while q < p + count
        invariant st == Success && |freeList| - Frames(pte, d, q, e) >= extra
        invariant empty ==> |freeList| - Frames(pte, d, q, e) == extra && forall g :: q <= g < e ==> NoPage(pte, d, g)
        invariant p <= q <= p + count && Quiet() && roles.home == old(roles.home) && roles.sys == old(roles.sys)
        invariant forall g :: p <= g < q ==> MappedPage(LookAt(pte, data, d, g), writable)
        invariant SameOutside(roles.home, old(pte), data, pte, data, d, p, q)
      {
        ghost var p1 := pte;
        assert IsUserPage(q);
        FramesFor(d, q, e);
        st := MapPage(d, q / 1024, q % 1024, writable);
        if st == Halt {
          return;
        }
        forall g | p <= g < q ensures MappedPage(LookAt(pte, data, d, g), writable) {
          OtherPages(roles.home, p1, data, pte, data, d, q, g);
        }
        MappedLooks(p1, d, q, writable);
        FramesAfter(p1, d, q, e, writable);
        OutsideMore(roles.home, old(pte), data, p1, data, pte, data, d, p, q);
        q := q + 1;
      }
      FramesNone(pte, d, e);
    }

    /** The frames left to take for pages q to e, before one of them is mapped and afterwards. */
    lemma FramesFor(d: nat, q: nat, e: nat)
      requires q < e
      ensures Frames(pte, d, q, e) >= if Slot(d, q / 1024) in pte then 1 else 2
    {
      if Slot(d, q / 1024) !in pte {
        assert q / 1024 in Tables(pte, d, q, e);
      }
    }

    lemma FramesAfter(was: Ptes, d: nat, q: nat, e: nat, writable: bool)
      requires Valid() && d in roles.home && q < e && MappedAs(was, d, q / 1024, q % 1024, writable)
      requires Slot(d, q / 1024) !in was ==> forall j: nat :: Slot(pte[Slot(d, q / 1024)].frame, j) !in was
      ensures Frames(was, d, q, e) == Frames(pte, d, q + 1, e) + if Slot(d, q / 1024) in was then 1 else 2
      ensures (forall g :: q <= g < e ==> NoPage(was, d, g)) ==> forall g :: q + 1 <= g < e ==> NoPage(pte, d, g)
    {
      hide Books, Shape, NoPage, Frames;
      var s, i := q / 1024, q % 1024;
      var f := pte[Slot(pte[Slot(d, s)].frame, i)];
      SlotsWith(was, pte, roles, pinned, refCount.Length, d, s, i, f);
      FramesMore(was, pte, d, q, e);
      forall g | q + 1 <= g < e && NoPage(was, d, g) ensures NoPage(pte, d, g) {
        StillNoPage(was, pte, roles, pinned, refCount.Length, d, s, i, f, g);
      }
    }

    lemma MappedLooks(was: Ptes, d: nat, g: nat, writable: bool)
      requires Valid() && MappedAs(was, d, g / 1024, g % 1024, writable)
      ensures MappedPage(LookAt(pte, data, d, g), writable)
    {
    }

    /** MmVirtualFree in the user half: pages p..p + count, which must be mapped. */
    method VirtualFree(d: nat, p: nat, count: nat) returns (st: Status)
      requires Quiet() && d in roles.home && forall g :: p <= g < p + count ==> IsUserPage(g)
      modifies refCount, this`freeList, this`pte, this`held
      ensures st == Success || st == Halt
      ensures st == Success <==> forall g :: p <= g < p + count ==> old(LookAt(pte, data, d, g)) != Unmapped
      ensures Quiet()
      ensures st == Success ==> forall g :: p <= g < p + count ==> LookAt(pte, data, d, g) == Unmapped
      ensures st == Success ==> SameOutside(roles.home, old(pte), data, pte, data, d, p, p + count)
    {
      hide Books, Shape, Same, SameBut, SameOutside, Look, LookAt;
      OutsideNone(roles.home, pte, data, d, p);
      st := Success;
      var q := p;
      while q < p + count
        invariant p <= q <= p + count && Quiet()
        invariant forall g :: p <= g < q ==>
          LookAt(pte, data, d, g) == Unmapped && old(LookAt(pte, data, d, g)) != Unmapped
        invariant forall g :: q <= g < p + count ==> LookAt(pte, data, d, g) == old(LookAt(pte, data, d, g))
        invariant SameOutside(roles.home, old(pte), data, pte, data, d, p, q)
      {
        ghost var p1 := pte;
        assert IsUserPage(q);
        UnmappedIs(d, q);
        if Slot(d, q / 1024) !in pte {
          return Halt;
        }
        if Slot(pte[Slot(d, q / 1024)].frame, q % 1024) !in pte {
          return Halt;
        }
        Walk(pte, roles, pinned, refCount.Length, d, q / 1024);
        UnmapPage(Slot(pte[Slot(d, q / 1024)].frame, q % 1024));
        UnmappedIs(d, q);
        forall g | p <= g < p + count && g != q ensures LookAt(pte, data, d, g) == LookAt(p1, data, d, g) {
          OtherPages(roles.home, p1, data, pte, data, d, q, g);
        }
        OutsideMore(roles.home, old(pte), data, p1, data, pte, data, d, p, q);
        q := q + 1;
      }
    }

    lemma UnmappedIs(d: nat, g: nat)
      requires Valid() && d in roles.home
      ensures LookAt(pte, data, d, g) == Unmapped <==>
        Slot(d, g / 1024) !in pte || Slot(pte[Slot(d, g / 1024)].frame, g % 1024) !in pte
    {
    }

    /** Conservation: a new address space, a clone into it, complete or stopped for lack of frames, and its deletion give
        back every frame; the only frame in use that was not is a page table for the temporary slot of d. */
    method CloneThenDelete(d: nat, i: nat) returns (st: Status)
      requires Quiet() && d in roles.home && Slot(sys, i) !in pte
      modifies refCount, this`freeList, this`pte, this`taken, this`held, this`roles
      ensures st != Halt ==> Quiet() && roles.home == old(roles.home)
      ensures st != Halt ==> forall f: nat :: f < refCount.Length && f !in pinned ==>
        && refCount[f] == old(refCount[f]) + (if NewAt(old(pte), Slot(d, TEMP_SLOT), f) then 1 else 0)
        && (f in freeList <==> f in old(freeList) && !NewAt(old(pte), Slot(d, TEMP_SLOT), f))
      ensures st != Halt ==> Same(roles.home, old(pte), data, pte, data)
    {
      hide Shape, Grown, Look, OwnersKept, Foreign, Same, SameOthers;
      SameAgain(roles.home, pte, data);
      ghost var p0, r0 := pte, roles;
      var c;
      st, c := Create(i);
      if st == NoMemory {
        return;
      }
      ghost var p1, r1 := pte, roles;
      st := Clone(d, c);
      if st == Halt {
        return;
      }
      ghost var p2, r2 := pte, roles;
      Delete(c, i);
      forall f: nat ensures Count(pte, f) == Count(p0, f) + if NewAt(p0, Slot(d, TEMP_SLOT), f) then 1 else 0 {
        GivenBack(p0, r0, p1, r1, p2, r2, pinned, refCount.Length, c, i, Slot(d, TEMP_SLOT), f);
      }
      SameAfterAll(r0.home, p0, p1, p2, pte, data, c, i);
    }

    /** Entry x is new, and names f. */
    ghost predicate NewAt(was: Ptes, x: Slot, f: nat)
      reads `pte
    {
      x !in was && x in pte && pte[x].frame == f
    }

    predicate WritableAt(k: Slot)
      reads `pte
    {
      k in pte && pte[k].user && pte[k].writable && !pte[k].cow
    }
  }
}
