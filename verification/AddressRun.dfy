/** Runs of the memory manager: calls of any processes in any order, and what each process sees of its own memory. */
module AddressRun {
  import opened AddressSpace
  import opened Common
  import opened Paging

  /** A user-mode store, or a call on an address space: MmMapSegment, MmVirtualFree, MmCreateProcessAddressSpace,
      MmCloneProcessAddressSpace and MmDeleteProcessAddressSpace. */
  datatype Event =
    | Put(w: Store)
    | Map(d: nat, p: nat, count: nat, rw: bool)
    | Unmap(d: nat, p: nat, count: nat)
    | Create(i: nat)
    | Clone(d: nat, c: nat)
    | Delete(d: nat)

  /** The processes, by directory and the system page it is mapped at, their tables and memory, and the number of free
      frames. */
  datatype Snap = Snap(home: map<nat, nat>, pte: Ptes, data: seq<seq<byte>>, free: nat)

  ghost function Sees(x: Snap, d: nat, s: nat, i: nat): View {
    Look(x.pte, x.data, d, s, i)
  }

  /** What a call that did not halt does to the processes and to what they see. */
  ghost predicate Stepped(a: Snap, e: Event, st: Status, b: Snap) {
    && (!e.Create? && !e.Delete? ==> b.home == a.home)
    && st == (if OutOfMemory(a, e) then NoMemory else Success) && (st == NoMemory ==> b.free == 0)
    && (!e.Map? ==> !Halting(a, e))
    && match e
       case Put(w) =>
         forall d: nat, s: nat, i: nat :: d in a.home && s != TEMP_SLOT ==>
           Sees(b, d, s, i) == After(w, d, s, i, Sees(a, d, s, i))
       case Map(d, p, count, rw) =>
         && SameOutside(a.home, a.pte, a.data, b.pte, b.data, d, p, p + count)
         && (forall g :: p <= g < p + count ==> MappedPage(LookAt(b.pte, b.data, d, g), rw))
       case Unmap(d, p, count) =>
         && SameOutside(a.home, a.pte, a.data, b.pte, b.data, d, p, p + count)
         && (forall g :: p <= g < p + count ==> LookAt(b.pte, b.data, d, g) == Unmapped)
       case Create(i) =>
         && Same(a.home, a.pte, a.data, b.pte, b.data)
         && (if st == Success then Born(a, i, b) else b.home == a.home)
       case Clone(d, c) =>
         && SameOthers(a.home, a.pte, a.data, b.pte, b.data, c)
         && (st == Success ==> forall s: nat, i: nat :: s != TEMP_SLOT ==> Sees(b, c, s, i) == Sees(a, d, s, i))
         && (st == Success ==> b.free + CloneCost(a.pte, d, USER_SLOTS) == a.free)
       case Delete(d) =>
         && b.home == WithoutHome(a.home, d)
         && SameOthers(a.home, a.pte, a.data, b.pte, b.data, d)
  }

  /** A process with nothing mapped came to be. */
  ghost predicate Born(a: Snap, i: nat, b: Snap) {
    exists c :: BornAs(a, c, i, b)
  }

  ghost predicate BornAs(a: Snap, c: nat, i: nat, b: Snap) {
    c !in a.home && b.home == a.home[c := i] && forall s: nat, j: nat :: Sees(b, c, s, j) == Unmapped
  }

  /** Are there enough frames to clone d, and room for the temporary mappings? */
  ghost predicate CloneFits(x: Snap, d: nat) {
    var cost := CloneCost(x.pte, d, USER_SLOTS);
    cost == 0 || (TempRoom(x.pte, d) && x.free >= cost)
  }

  /** Why a call returns for want of memory: no frame for a directory, or for a page table of the clone. */
  ghost predicate OutOfMemory(x: Snap, e: Event) {
    match e
    case Create(i) => x.free == 0
    case Clone(d, c) => !CloneFits(x, d) && (x.free == 0 || CopyFits(x.pte, d, x.free))
    case _ => false
  }

  /** Why a call halts: no right to store there, or a page to copy without the frames or the temporary mapping for it;
      too few frames; a page to free that is not mapped; no temporary mapping for the first page table of the clone. */
  ghost predicate Halting(x: Snap, e: Event) {
    match e
    case Put(w) =>
      || Sees(x, w.d, w.s, w.i).Unmapped?
      || !Sees(x, w.d, w.s, w.i).rw
      || (SharedAt(x.pte, w.d, w.s, w.i) && !CopyFits(x.pte, w.d, x.free))
    case Map(d, p, count, rw) => x.free < Frames(x.pte, d, p, p + count)
    case Unmap(d, p, count) => exists g :: p <= g < p + count && LookAt(x.pte, x.data, d, g) == Unmapped
    case Clone(d, c) => !CloneFits(x, d) && x.free > 0 && !CopyFits(x.pte, d, x.free)
    case _ => false
  }

  /** Is this a call that one of the processes can make, or the kernel for it? */
  predicate Applies(procs: map<nat, nat>, sys: nat, pte: Ptes, e: Event) {
    match e
    case Put(w) => w.d in procs && w.s < USER_SLOTS && w.s != TEMP_SLOT && w.i < TABLE && w.off < PAGE
    case Map(d, p, count, rw) => d in procs && forall g | p <= g < p + count :: IsUserPage(g)
    case Unmap(d, p, count) => d in procs && forall g | p <= g < p + count :: IsUserPage(g)
    case Create(i) => Slot(sys, i) !in pte
    case Clone(d, c) => d in procs && c in procs && d != c && forall s | 0 <= s < USER_SLOTS :: Slot(c, s) !in pte
    case Delete(d) => d in procs
  }

  ghost function Now(m: Memory): Snap
    reads m`roles, m`pte, m`data, m`freeList
  {
    Snap(m.roles.home, m.pte, m.data, |m.freeList|)
  }

  /** The books, the shape of the tables and the pages are in order, and `procs` are the processes. */
  ghost predicate Ready(m: Memory, procs: map<nat, nat>)
    reads m, m.refCount
  {
    m.Quiet() && m.Pages() && procs == m.roles.home
  }

  lemma NothingMapped(pte: Ptes, data: seq<seq<byte>>, d: nat)
    requires forall s: nat :: Slot(d, s) !in pte
    ensures forall s: nat, i: nat :: Look(pte, data, d, s, i) == Unmapped
  {
  }

  lemma NoSlots(pte: Ptes, r: Roles, pinned: set<nat>, n: nat, d: nat)
    requires Shape(pte, r, pinned, n) && d in r.home && forall s | 0 <= s < USER_SLOTS :: Slot(d, s) !in pte
    ensures forall s: nat :: Slot(d, s) !in pte
  {
    NotSys(pte, r, pinned, n, d);
    forall s: nat ensures Slot(d, s) !in pte {
      assert Slot(d, s) in pte ==> Placed(pte, r, Slot(d, s));
    }
  }

  /** Makes a call. */
  method Turn(m: Memory, procs: map<nat, nat>, e: Event) returns (st: Status, now: map<nat, nat>)
    requires Ready(m, procs) && Applies(procs, m.sys, m.pte, e)
    modifies m.refCount, m`freeList, m`pte, m`taken, m`held, m`roles, m`data
    ensures st != Halt ==> Ready(m, now) && Stepped(old(Now(m)), e, st, Now(m))
    ensures st == Halt ==> Halting(old(Now(m)), e)
    ensures (e.Map? ==> forall g :: e.p <= g < e.p + e.count ==> NoPage(old(m.pte), e.d, g)) ==>
      (st == Halt <==> Halting(old(Now(m)), e))
  {
    hide Books, Shape, Same, SameOthers, SameOutside, Look, After, WithoutHome, Foreign, Grown, OwnersKept, TempRoom,
      CopyFits, SharedAt, Frames, NoPage;
    now := procs;
    match e {
      case Put(w) =>
        st := m.UserWrite(w);
      case Map(d, p, count, rw) =>
        st := m.MapSegment(d, p, count, rw);
      case Unmap(d, p, count) =>
        st := m.VirtualFree(d, p, count);
      case Create(i) =>
        SameAgain(m.roles.home, m.pte, m.data);
        var d;
        st, d := m.Create(i);
        if st == Success {
          now := now[d := i];
          NothingMapped(m.pte, m.data, d);
          assert BornAs(old(Now(m)), d, i, Now(m));
        }
      case Clone(d, c) =>
        NoSlots(m.pte, m.roles, m.pinned, m.refCount.Length, c);
        st := m.Clone(d, c);
      case Delete(d) =>
        m.Delete(d, procs[d]);
        now := WithoutHome(procs, d);
        st := Success;
    }
  }

  /** Does the call make this page anew? */
  predicate Remade(e: Event, d: nat, s: nat, i: nat) {
    match e
    case Map(f, p, count, rw) => Among(d, s, i, f, p, p + count)
    case Clone(f, c) => c == d
    case Delete(f) => f == d
    case _ => false
  }

  /** The page (d, s, i) after a call that does not make it anew. */
  function Own(e: Event, d: nat, s: nat, i: nat, v: View): View {
    match e
    case Put(w) => After(w, d, s, i, v)
    case Unmap(f, p, count) => if Among(d, s, i, f, p, p + count) then Unmapped else v
    case _ => v
  }

  /** The page (d, s, i) after calls in order, as if each process had memory of its own. */
  function OwnAll(es: seq<Event>, d: nat, s: nat, i: nat, v: View): View {
    if es == [] then v else Own(es[|es| - 1], d, s, i, OwnAll(es[..|es| - 1], d, s, i, v))
  }

  /** A run: from each snapshot to the next by a call. */
  ghost predicate Trace(es: seq<Event>, sts: seq<Status>, xs: seq<Snap>) {
    && |sts| <= |es| && |xs| == |sts| + 1
    && forall k :: 0 <= k < |sts| ==> Stepped(xs[k], es[k], sts[k], xs[k + 1])
  }

  lemma OneCall(a: Snap, e: Event, st: Status, b: Snap, d: nat, s: nat, i: nat)
    requires Stepped(a, e, st, b) && d in a.home && s != TEMP_SLOT && !Remade(e, d, s, i)
    ensures d in b.home && Sees(b, d, s, i) == Own(e, d, s, i, Sees(a, d, s, i))
  {
    hide Look, After;
    PageNumber(s, i);
    assert i < 1024 ==> LookAt(b.pte, b.data, d, 1024 * s + i) == Sees(b, d, s, i);
  }

  lemma PageNumber(s: nat, i: nat)
    ensures i < 1024 ==> (1024 * s + i) / 1024 == s && (1024 * s + i) % 1024 == i
  {
  }

  /** Isolation: over a run of calls of any processes, a page that no call makes anew is after the run what the calls of
      its own process make of it, clones of the process included. */
  lemma {:induction false} Isolated(es: seq<Event>, sts: seq<Status>, xs: seq<Snap>, d: nat, s: nat, i: nat)
    requires Trace(es, sts, xs) && |sts| == |es| && d in xs[0].home && s != TEMP_SLOT
    requires forall e :: e in es ==> !Remade(e, d, s, i)
    ensures d in xs[|es|].home && Sees(xs[|es|], d, s, i) == OwnAll(es, d, s, i, Sees(xs[0], d, s, i))
  {
    hide Stepped, Sees, Remade, Own;
    if es != [] {
      var n := |es| - 1;
      Isolated(es[..n], sts[..n], xs[..n + 1], d, s, i);
      assert es[n] in es;
      OneCall(xs[n], es[n], sts[n], xs[n + 1], d, s, i);
    }
  }

  /** What other processes do does not show. */
  predicate Elsewhere(e: Event, d: nat) {
    match e
    case Put(w) => w.d != d
    case Map(f, p, count, rw) => f != d
    case Unmap(f, p, count) => f != d
    case Create(i) => true
    case Clone(f, c) => c != d
    case Delete(f) => f != d
  }

  lemma {:induction false} ElsewhereIsNothing(es: seq<Event>, d: nat, s: nat, i: nat, v: View)
    requires forall e :: e in es ==> Elsewhere(e, d)
    ensures OwnAll(es, d, s, i, v) == v && forall e :: e in es ==> !Remade(e, d, s, i)
  {
    if es != [] {
      assert es[|es| - 1] in es;
      ElsewhereIsNothing(es[..|es| - 1], d, s, i, v);
    }
  }

  /** Calls of any processes in any order, page faults included. The books, the tables and the pages stay in order, every
      call does what it may do, and the run stops early only at a call that halts, for cause, or that nobody can make. */
  method Run(m: Memory, procs: map<nat, nat>, es: seq<Event>)
      returns (sts: seq<Status>, now: map<nat, nat>, ghost xs: seq<Snap>)
    requires Ready(m, procs)
    modifies m.refCount, m`freeList, m`pte, m`taken, m`held, m`roles, m`data
    ensures Trace(es, sts, xs) && |sts| <= |es| && |xs| == |sts| + 1 && xs[0] == old(Now(m))
    ensures |sts| == |es| ==> Ready(m, now) && xs[|es|] == Now(m)
    ensures |sts| < |es| && !Halting(xs[|sts|], es[|sts|]) ==>
      Ready(m, now) && xs[|sts|] == Now(m) && !Applies(now, m.sys, m.pte, es[|sts|])
  {
    hide Ready, Stepped, Applies, Halting, Memory.Quiet, Memory.Pages, Memory.Valid;
    sts, now, xs := [], procs, [Now(m)];
    while |sts| < |es|
      invariant Ready(m, now) && Trace(es, sts, xs) && xs[0] == old(Now(m)) && xs[|sts|] == Now(m)
    {
      var e := es[|sts|];
      if !Applies(now, m.sys, m.pte, e) {
        return;
      }
      ghost var x := Now(m);
      var st, next := Turn(m, now, e);
      if st == Halt {
        return;
      }
      sts, now, xs := sts + [st], next, xs + [Now(m)];
    }
  }

  /** Fork isolation: a clone is made, and then the two processes and all others make any calls. A page of either that no
      later call makes anew is what its own calls make of the page the one saw at the clone. */
  method ForkThenRun(m: Memory, procs: map<nat, nat>, d: nat, c: nat, es: seq<Event>) returns (sts: seq<Status>)
    requires Ready(m, procs) && Applies(procs, m.sys, m.pte, Clone(d, c))
    modifies m.refCount, m`freeList, m`pte, m`taken, m`held, m`roles, m`data
    ensures old(CloneFits(Now(m), d)) <==> sts != [] && sts[0] == Success
    ensures |sts| == |es| + 1 && sts[0] == Success ==> forall s: nat, i: nat {:trigger Apart(es, d, c, s, i)} ::
      s != TEMP_SLOT && Apart(es, d, c, s, i) ==>
        && Look(m.pte, m.data, c, s, i) == OwnAll(es, c, s, i, old(Look(m.pte, m.data, d, s, i)))
        && Look(m.pte, m.data, d, s, i) == OwnAll(es, d, s, i, old(Look(m.pte, m.data, d, s, i)))
  {
    hide Ready, Stepped, Applies, Halting, Apart, Trace, Look, Memory.Quiet, Memory.Pages, Memory.Valid;
    Homes(m, procs, d, c);
    ProcsAre(m, procs);
    var now;
    ghost var xs;
    sts, now, xs := Run(m, procs, [Clone(d, c)] + es);
    if sts == [] {
      ProcsAre(m, now);
    }
    CloneDone(d, c, es, sts, xs);
    if |sts| == |es| + 1 && sts[0] == Success {
      forall s: nat, i: nat | s != TEMP_SLOT && Apart(es, d, c, s, i)
        ensures Look(m.pte, m.data, c, s, i) == OwnAll(es, c, s, i, Look(xs[0].pte, xs[0].data, d, s, i))
        ensures Look(m.pte, m.data, d, s, i) == OwnAll(es, d, s, i, Look(xs[0].pte, xs[0].data, d, s, i))
      {
        ForkedApart(es, sts, xs, d, c, s, i);
      }
    }
  }

  lemma ProcsAre(m: Memory, procs: map<nat, nat>)
    ensures Ready(m, procs) ==> Now(m).home == procs
    ensures Now(m).pte == m.pte
  {
  }

  lemma CloneDone(d: nat, c: nat, es: seq<Event>, sts: seq<Status>, xs: seq<Snap>)
    requires Trace([Clone(d, c)] + es, sts, xs) && (sts == [] ==> Halting(xs[0], Clone(d, c)))
    ensures CloneFits(xs[0], d) <==> sts != [] && sts[0] == Success
  {
    hide CopyFits, CloneCost, TempRoom, SameOthers;
    assert sts != [] ==> Stepped(xs[0], Clone(d, c), sts[0], xs[1]);
  }

  lemma Homes(m: Memory, procs: map<nat, nat>, d: nat, c: nat)
    requires Ready(m, procs) && Applies(procs, m.sys, m.pte, Clone(d, c))
    ensures d in Now(m).home && c in Now(m).home && d != c
  {
  }

  /** No call makes the page anew for either process. */
  ghost predicate Apart(es: seq<Event>, d: nat, c: nat, s: nat, i: nat) {
    forall e :: e in es ==> !Remade(e, d, s, i) && !Remade(e, c, s, i)
  }

  lemma ForkedApart(es: seq<Event>, sts: seq<Status>, xs: seq<Snap>, d: nat, c: nat, s: nat, i: nat)
    requires Trace([Clone(d, c)] + es, sts, xs) && |sts| == |es| + 1 && sts[0] == Success
    requires d in xs[0].home && c in xs[0].home && d != c && s != TEMP_SLOT && Apart(es, d, c, s, i)
    ensures
      var v, n := Sees(xs[0], d, s, i), |es| + 1;
      Sees(xs[n], c, s, i) == OwnAll(es, c, s, i, v) && Sees(xs[n], d, s, i) == OwnAll(es, d, s, i, v)
  {
    var all := [Clone(d, c)] + es;
    assert all[0] == Clone(d, c) && all[1..] == es;
    OneCall(xs[0], all[0], sts[0], xs[1], d, s, i);
    assert Sees(xs[1], c, s, i) == Sees(xs[0], d, s, i);
    hide Stepped, Sees, Remade, Own;
    assert Trace(es, sts[1..], xs[1..]);
    Isolated(es, sts[1..], xs[1..], d, s, i);
    Isolated(es, sts[1..], xs[1..], c, s, i);
  }
}
