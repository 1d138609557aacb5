/** Runs of calls on open files: two files of a volume worked on in turn, and a run that leaves a stray buffer. */
module FatRun {
  import opened Bytes
  import opened Common
  import opened FatChains
  import opened FatCodec
  import opened FatFile
  import opened FatLayout
  import opened FatVolume

  datatype Request =
    | DoWrite(data: seq<byte>)
    | DoRead(count: nat)
    | DoSeek(offset: dword)
    | DoTruncate
    | DoSync(sect: nat, off: nat, time: dword) // and where the directory entry of the file is

  /** What a call returns: its result, the bytes read, and the number of bytes written. */
  datatype Reply = Reply(res: FResult, data: seq<byte>, count: nat)

  /** A file as its user sees it, and the number of its clusters. */
  datatype Image = Image(bytes: seq<byte>, pos: nat, clusters: nat)

  /** The bytes that so many clusters hold. */
  function Capacity(g: Geometry, clusters: nat): nat {
    512 * g.csize * clusters
  }

  /** The clusters that so many bytes take. */
  function Needed(g: Geometry, n: nat): nat {
    if n == 0 || g.csize == 0 then 0 else (n - 1) / 512 / g.csize + 1
  }

  function Least(a: nat, b: nat): nat {
    if a < b then a else b
  }

  /** Is this what a request does to a file opened with these rights, on a disk with so many free clusters before and
      left? A write stores all bytes, or as many as the clusters of the file and the free ones hold, and so does a seek
      with write access move the pointer; no cluster is lost. */
  ghost predicate Served(g: Geometry, f: Rights, i: Image, free: nat, q: Request, a: Reply, j: Image, left: nat) {
    && j.clusters + left == i.clusters + free
    && i.pos <= |i.bytes|
    && match q
       case DoWrite(data) =>
         if f.error || !f.canWrite then a.res == f.Refusal(f.canWrite) && j == i
         else
           && a.res == FrOk && a.count <= |data|
           && (if |i.bytes| + |data| >= 0x1_0000_0000 then a.count == 0
               else i.pos + a.count == Least(i.pos + |data|, Capacity(g, i.clusters + free)))
           && j.bytes == Patch(i.bytes, i.pos, data[..a.count]) && j.pos == i.pos + a.count
       case DoRead(count) =>
         if f.error || !f.canRead then a.res == f.Refusal(f.canRead) && j == i
         else
           && a.res == FrOk
           && j == i.(pos := Least(i.pos + count, |i.bytes|))
           && a.data == i.bytes[i.pos..j.pos]
       case DoSeek(offset) =>
         if f.error then a.res == FrIntErr && j == i
         else
           && a.res == FrOk
           && j.pos == Least(offset, if f.canWrite then Capacity(g, i.clusters + free) else |i.bytes|)
           && i.bytes <= j.bytes && |j.bytes| == (if j.pos > |i.bytes| then j.pos else |i.bytes|)
       case DoTruncate =>
         if f.error || !f.canWrite then a.res == f.Refusal(f.canWrite) && j == i
         else
           && a.res == FrOk
           && j == Image(i.bytes[..i.pos], i.pos, if i.pos < |i.bytes| then Needed(g, i.pos) else i.clusters)
       case DoSync(_, _, _) => a.res == FrOk && j == i
  }

  /** What a file object was opened for, and whether it was stopped by an error. */
  datatype Rights = Rights(error: bool, canRead: bool, canWrite: bool) {
    function Refusal(allowed: bool): FResult {
      if error then FrIntErr else if !allowed then FrDenied else FrOk
    }
  }

  function RightsOf(f: File): Rights
    reads f`error
  {
    Rights(f.error, f.canRead, f.canWrite)
  }

  ghost function ImageOf(f: File): Image
    reads f, f.fs, f.fs.win, f.buf
    requires f.Chained()
  {
    Image(f.Contents(), f.fptr, |f.chain|)
  }

  ghost function Free(v: Volume): nat
    reads v, v.win
    requires v.Valid()
  {
    Zeros(v.Fat())
  }

  /** f_truncate leaves no stray buffer: it cuts nothing, or the buffer names no sector given up. */
  ghost predicate Cuttable(f: File)
    reads f
  {
    f.fptr >= f.fsize || f.dsect == 0 || HasSect(f.fs.g, Holding(f.fs.g, f.chain, f.fptr), f.dsect)
  }

  /** The first k clusters from c on, as the FAT links them. */
  function Walked(fat: seq<nat>, c: nat, k: nat): seq<nat>
    decreases k
  {
    if k == 0 || c >= |fat| then [] else [c] + Walked(fat, fat[c], k - 1)
  }

  /** The same, found out from the fields of the file and the FAT. */
  predicate KeepsBuffer(f: File)
    reads f, f.buf, f.fs, f.fs.win
    requires f.Valid()
  {
    var g := f.fs.g;
    || f.fptr >= f.fsize
    || f.dsect == 0
    || exists c :: c in Walked(f.fs.Fat(), f.orgClust, Needed(g, f.fptr)) &&
         Clust2Sect(g, c) <= f.dsect < Clust2Sect(g, c) + g.csize
  }

  lemma {:induction false} WalkedIs(fat: seq<nat>, chain: seq<nat>, i: nat, k: nat)
    requires IsChain(fat, chain) && i < |chain| && i + k <= |chain|
    ensures Walked(fat, chain[i], k) == chain[i..i + k]
    decreases k
  {
    if k > 0 {
      Link(fat, chain, i);
      if k > 1 {
        WalkedIs(fat, chain, i + 1, k - 1);
      } else {
        assert Walked(fat, fat[chain[i]], 0) == [];
      }
    }
  }

  /** A sector of a chain is one of a cluster of it. */
  lemma SectInCluster(g: Geometry, sectors: nat, chain: seq<nat>, s: nat)
    requires g.DataOk(sectors) && Proper(g, chain)
    ensures HasSect(g, chain, s) <==> exists c :: c in chain && Clust2Sect(g, c) <= s < Clust2Sect(g, c) + g.csize
  {
    hide Clust2Sect, Proper;
    if HasSect(g, chain, s) {
      var q: nat :| g.csize > 0 && q / g.csize < |chain| && SectOf(g, chain, q) == s;
      assert chain[q / g.csize] in chain;
    }
    forall i: nat | i < |chain| && Clust2Sect(g, chain[i]) <= s < Clust2Sect(g, chain[i]) + g.csize
      ensures HasSect(g, chain, s)
    {
      DivBySize(g.csize, i, 0);
      RunHasSects(g, sectors, chain, g.csize * i, g.csize);
    }
  }

  /** A place for directory entries: the root table before the clusters, or a sector of another chain. */
  ghost predicate EntryPlace(g: Geometry, rest: set<seq<nat>>, sect: nat, off: nat) {
    && off + 32 <= 512
    && (g.fatbase + g.FatArea() <= sect < g.database || exists dir :: dir in rest && HasSect(g, dir, sect))
  }

  function With(rest: set<seq<nat>>, chain: seq<nat>): set<seq<nat>> {
    if chain == [] then rest else rest + {chain}
  }

  /** Two open files of one volume; `rest` are the chains of all else on it. */
  ghost predicate Together(a: File, b: File, rest: set<seq<nat>>)
    reads a, a.buf, b, b.buf, a.fs, a.fs.win
  {
    && a.fs == b.fs && a != b && a.buf != b.buf
    && a.Valid() && b.Valid() && !a.stray && !b.stray && (a.dirty ==> a.written) && (b.dirty ==> b.written)
    && a.others == With(rest, b.chain) && b.others == With(rest, a.chain)
    && a.chain !in rest && b.chain !in rest
  }

  /** The other file still owns its chain. */
  lemma StillOwns(g: Geometry, fat: seq<nat>, mine: seq<nat>, rest: set<seq<nat>>, org: nat, theirs: seq<nat>,
                  first: nat)
    requires Owns(g, fat, mine, With(rest, theirs), org) && theirs !in rest
    requires first == if theirs == [] then 0 else theirs[0]
    ensures Owns(g, fat, theirs, With(rest, mine), first) && mine !in rest
  {
    var all := With(With(rest, theirs), mine);
    assert forall ch :: ch in all ==> |ch| > 0;
    assert With(With(rest, mine), theirs) == all;
  }

  /** The place of a directory entry is no sector of the file. */
  lemma EntryAway(g: Geometry, sectors: nat, fat: seq<nat>, mine: seq<nat>, others: set<seq<nat>>, org: nat,
                  rest: set<seq<nat>>, sect: nat, off: nat)
    requires Owns(g, fat, mine, others, org) && rest <= others && g.Ok(sectors) && g.DataOk(sectors)
    requires EntryPlace(g, rest, sect, off)
    ensures !HasSect(g, mine, sect) && g.fatbase + g.FatArea() <= sect < sectors && off + 32 <= 512
  {
    hide Owns, Proper, Apart, HasSect;
    OwnsChain(g, fat, mine, others, org);
    SectsInData(g, sectors, mine);
    if exists dir :: dir in rest && HasSect(g, dir, sect) {
      var dir :| dir in rest && HasSect(g, dir, sect);
      OwnsApart(g, fat, mine, others, org, dir);
      SectApart(g, sectors, mine, dir, sect);
    }
  }

  lemma OwnsApart(g: Geometry, fat: seq<nat>, mine: seq<nat>, others: set<seq<nat>>, org: nat, dir: seq<nat>)
    requires Owns(g, fat, mine, others, org) && dir in others
    ensures Proper(g, dir) && (mine == [] || Apart(dir, mine))
  {
    assert IsChain(fat, dir);
    ChainProper(g, fat, dir);
  }

  lemma SectApart(g: Geometry, sectors: nat, mine: seq<nat>, dir: seq<nat>, sect: nat)
    requires g.DataOk(sectors) && Proper(g, mine) && Proper(g, dir) && (mine == [] || Apart(dir, mine))
    requires HasSect(g, dir, sect)
    ensures !HasSect(g, mine, sect) && g.database <= sect < sectors
  {
    hide Proper, SectOf, Apart;
    var p: nat :| g.csize > 0 && p / g.csize < |dir| && SectOf(g, dir, p) == sect;
    NoSect(g, sect);
    SectRange(g, sectors, dir, p);
    if mine != [] {
      NoSharedSect(g, sectors, mine, dir, p);
    }
  }

  // Capacity.

  /** Room for so many bytes is capacity for them. */
  lemma RoomIs(g: Geometry, chain: seq<nat>, n: nat)
    requires Size(g.csize)
    ensures Room(g, chain, n) <==> n <= Capacity(g, |chain|)
  {
  }

  lemma CapacityMore(g: Geometry, a: nat, b: nat)
    requires a <= b
    ensures Capacity(g, a) <= Capacity(g, b)
  {
  }

  lemma NoneFreeIs(fat: seq<nat>)
    requires NoneFree(fat) && |fat| >= 2
    ensures Zeros(fat) == 0
  {
    ZerosBelowAll(fat, 2, |fat|);
  }

  /** Where a pointer gets that stops only when the disk is full and the clusters of the file end there. */
  lemma AsFarAsItFits(g: Geometry, f0: seq<nat>, c0: seq<nat>, f1: seq<nat>, c1: seq<nat>, target: nat, p: nat)
    requires Size(g.csize) && |f0| >= 2 && Grew(f0, c0, f1, c1)
    requires Room(g, c1, p) && p <= target && (p == target || Full(g, f1, c1, p))
    ensures p == Least(target, Capacity(g, |c0| + Zeros(f0)))
  {
    hide Room, Zeros, NoneFree, Capacity;
    RoomIs(g, c1, p);
    RoomIs(g, c1, p + 1);
    CapacityMore(g, |c1|, |c1| + Zeros(f1));
    if NoneFree(f1) {
      NoneFreeIs(f1);
    }
  }

  // Calls.

  /** The facts about a file that runs need. */
  lemma Facts(f: File)
    requires f.Valid()
    ensures f.Core() && f.Chained() && f.fptr <= f.fsize && Room(f.fs.g, f.chain, f.fsize) && f.fs.Valid() &&
      Size(f.fs.g.csize)
    ensures f.fs.g.DataOk(|f.fs.disk| / 512) && f.fs.g.Ok(|f.fs.disk| / 512) && |f.fs.Fat()| >= 2
    ensures |f.fs.Logical()| == |f.fs.disk| && Room(f.fs.g, f.chain, f.fptr) && |ImageOf(f).bytes| == f.fsize
  {
    hide Owns, Buffered, InFile, Volume.Valid, Volume.Logical, Volume.Fat, File.Contents;
    f.CoreFacts();
    f.fs.OutsideIs();
    RoomLess(f.fs.g, f.chain, f.fsize, f.fptr);
  }

  lemma RoomLess(g: Geometry, chain: seq<nat>, n: nat, m: nat)
    requires Size(g.csize) && Room(g, chain, n) && m <= n
    ensures Room(g, chain, m)
  {
    RoomIs(g, chain, n);
    RoomIs(g, chain, m);
  }

  lemma ImageIs(f: File)
    requires f.Chained()
    ensures ImageOf(f) == Image(f.Contents(), f.fptr, |f.chain|) && Free(f.fs) == Zeros(f.fs.Fat())
  {
  }

  /** A request was served to a file with these rights, whose table and chain were fat and chain. */
  lemma WriteServed(g: Geometry, r: Rights, i: Image, fat: seq<nat>, chain: seq<nat>, data: seq<byte>, a: Reply,
                    j: Image,
                    now: seq<nat>, longer: seq<nat>)
    requires Size(g.csize) && |fat| >= 2 && Grew(fat, chain, now, longer) && Room(g, longer, j.pos)
    requires i.clusters == |chain| && j.clusters == |longer| && i.pos <= |i.bytes| &&
      (a.res != FrOk ==> longer == chain)
    requires a.res == r.Refusal(r.canWrite) && a.count <= |data| && j.pos == i.pos + a.count
    requires j.bytes == Patch(i.bytes, i.pos, data[..a.count])
    requires a.res != FrOk || |i.bytes| + |data| >= 0x1_0000_0000 ==> a.count == 0
    requires a.res == FrOk && |i.bytes| + |data| < 0x1_0000_0000 ==> a.count == |data| || Full(g, now, longer, j.pos)
    ensures Served(g, r, i, Zeros(fat), DoWrite(data), a, j, Zeros(now))
  {
    hide Room, Zeros, NoneFree, Capacity;
    PatchEmpty(i.bytes, i.pos);
    assert a.count == 0 ==> data[..a.count] == [];
    if a.res == FrOk && |i.bytes| + |data| < 0x1_0000_0000 {
      AsFarAsItFits(g, fat, chain, now, longer, i.pos + |data|, j.pos);
    }
  }

  lemma SeekServed(g: Geometry, r: Rights, i: Image, fat: seq<nat>, chain: seq<nat>, offset: dword, a: Reply, j: Image,
                   now: seq<nat>, longer: seq<nat>)
    requires Size(g.csize) && |fat| >= 2 && Grew(fat, chain, now, longer) && Room(g, longer, j.pos)
    requires i.clusters == |chain| && j.clusters == |longer| && i.pos <= |i.bytes|
    requires if r.error then a.res == FrIntErr && j.pos == i.pos && longer == chain else a.res == FrOk
    requires !r.error && !r.canWrite ==> j.pos == Least(offset, |i.bytes|)
    requires !r.error && r.canWrite && j.pos != offset ==> j.pos < offset && Full(g, now, longer, j.pos)
    requires |j.bytes| == (if j.pos > |i.bytes| then j.pos else |i.bytes|) && i.bytes <= j.bytes
    ensures Served(g, r, i, Zeros(fat), DoSeek(offset), a, j, Zeros(now))
  {
    hide Room, Zeros, NoneFree, Capacity;
    if !r.error && r.canWrite {
      AsFarAsItFits(g, fat, chain, now, longer, offset, j.pos);
    }
  }

  /** From the old state, a request was served to f. */
  twostate predicate Answered(f: File, q: Request, a: Reply)
    reads f, f.fs, f.fs.win, f.buf
    requires old(f.Chained()) && f.Chained()
  {
    Served(f.fs.g, RightsOf(f), old(ImageOf(f)), old(Free(f.fs)), q, a, ImageOf(f), Free(f.fs))
  }

  /** f_write. */
  method Store(f: File, data: seq<byte>) returns (a: Reply)
    requires f.Valid()
    modifies f, f.buf, f.fs, f.fs.win
    ensures f.Valid() && f.others == old(f.others) && f.error == old(f.error) && f.stray == old(f.stray)
    ensures old(f.dirty ==> f.written) ==> (f.dirty ==> f.written)
    ensures Answered(f, DoWrite(data), a)
    ensures f.fs.Steady() && SameElsewhere(f.fs.g, f.chain, old(f.fs.Logical()), f.fs.Logical())
  {
    hide File.Valid, File.Contents, Volume.Valid, Volume.Logical, Volume.Fat, Volume.FreeExact, Volume.Counted,
      SameElsewhere, Zeros, Capacity, Patch, Room, Full, Served, ImageOf, Free, Grew;
    Facts(f);
    ImageIs(f);
    ghost var fat, chain, i := f.fs.Fat(), f.chain, ImageOf(f);
    var res, count := f.Write(data);
    Facts(f);
    ImageIs(f);
    a := Reply(res, [], count);
    WriteServed(f.fs.g, RightsOf(f), i, fat, chain, data, a, ImageOf(f), f.fs.Fat(), f.chain);
  }

  /** f_lseek. */
  method Move(f: File, offset: dword) returns (a: Reply)
    requires f.Valid()
    modifies f, f.buf, f.fs, f.fs.win
    ensures f.Valid() && f.others == old(f.others) && f.error == old(f.error) && f.stray == old(f.stray)
    ensures old(f.dirty ==> f.written) ==> (f.dirty ==> f.written)
    ensures Answered(f, DoSeek(offset), a)
    ensures f.fs.Steady() && SameElsewhere(f.fs.g, f.chain, old(f.fs.Logical()), f.fs.Logical())
  {
    hide File.Valid, File.Contents, Volume.Valid, Volume.Logical, Volume.Fat, Volume.FreeExact, Volume.Counted,
      SameElsewhere, Zeros, Capacity, Patch, Room, Full, Served, ImageOf, Free, Grew;
    Facts(f);
    ImageIs(f);
    ghost var fat, chain, i := f.fs.Fat(), f.chain, ImageOf(f);
    var res := f.Seek(offset);
    Facts(f);
    ImageIs(f);
    a := Reply(res, [], 0);
    assert i.bytes <= f.Contents();
    SeekServed(f.fs.g, RightsOf(f), i, fat, chain, offset, a, ImageOf(f), f.fs.Fat(), f.chain);
  }

  lemma CutServed(g: Geometry, r: Rights, i: Image, fat: seq<nat>, chain: seq<nat>, a: Reply, j: Image, now: seq<nat>,
                  kept: seq<nat>, e: nat)
    requires Size(g.csize) && Room(g, chain, |i.bytes|) && CutTo(fat, chain, kept, now, e) && e > 0
    requires i.clusters == |chain| && j.clusters == |kept| && i.pos <= |i.bytes| && j.pos == i.pos
    requires a.res == r.Refusal(r.canWrite) && |j.bytes| == (if a.res == FrOk then i.pos else |i.bytes|)
    requires j.bytes == i.bytes[..|j.bytes|]
    requires kept == if |j.bytes| < |i.bytes| then Holding(g, chain, i.pos) else chain
    ensures Served(g, r, i, Zeros(fat), DoTruncate, a, j, Zeros(now))
  {
    hide Zeros, Room, IsChain;
    CutZeros(fat, chain, kept, now, e);
    HoldingSize(g, chain, |i.bytes|, i.pos);
  }

  lemma HoldingSize(g: Geometry, chain: seq<nat>, n: nat, p: nat)
    requires Size(g.csize) && Room(g, chain, n)
    ensures p < n ==> |Holding(g, chain, p)| == Needed(g, p)
  {
    if 0 < p < n {
      RoomLess(g, chain, n, p);
    }
  }

  /** The buffer of a file is of one of its sectors. */
  lemma BufferFacts(f: File)
    requires f.Valid() && !f.stray
    ensures f.dsect == 0 || HasSect(f.fs.g, f.chain, f.dsect)
    ensures f.dirty ==> HasSect(f.fs.g, f.chain, f.dsect)
  {
    hide Owns, Volume.Valid, Volume.Logical, Volume.Fat, HasSect, Room, IsCluster;
  }

  /** Where f_truncate leaves no stray buffer can be told from the fields of the file and the FAT. */
  lemma CuttableIs(f: File)
    requires f.Valid()
    ensures Cuttable(f) <==> KeepsBuffer(f)
  {
    hide Owns, Volume.Valid, Volume.Logical, Volume.Fat, HasSect, Clust2Sect, Holding, Needed, IsChain, Proper, Room;
    f.CoreFacts();
    if f.fptr < f.fsize {
      var g, kept := f.fs.g, Holding(f.fs.g, f.chain, f.fptr);
      HoldingSize(g, f.chain, f.fsize, f.fptr);
      KeptProper(g, f.chain, f.fptr);
      RoomNeeds(g, f.chain, f.fsize);
      WalkedIs(f.fs.Fat(), f.chain, 0, Needed(g, f.fptr));
      SectInCluster(g, |f.fs.disk| / 512, kept, f.dsect);
    }
  }

  lemma KeptProper(g: Geometry, chain: seq<nat>, p: nat)
    requires Proper(g, chain)
    ensures Proper(g, Holding(g, chain, p))
  {
  }

  lemma RoomNeeds(g: Geometry, chain: seq<nat>, n: nat)
    requires Size(g.csize) && Room(g, chain, n) && n > 0
    ensures chain != []
  {
  }

  lemma CutStays(g: Geometry, sectors: nat, chain: seq<nat>, dirty: bool, dsect: nat, p: nat, n: nat, kept: seq<nat>)
    requires g.DataOk(sectors) && g.Ok(sectors) && Proper(g, chain)
    requires (dsect == 0 || HasSect(g, chain, dsect)) && (dirty ==> HasSect(g, chain, dsect))
    requires p >= n || dsect == 0 || HasSect(g, Holding(g, chain, p), dsect)
    requires kept == chain || (p < n && kept == Holding(g, chain, p))
    ensures (dsect == 0 || HasSect(g, kept, dsect)) && (dirty ==> HasSect(g, kept, dsect))
  {
    hide HasSect, Proper, Holding;
    SectsInData(g, sectors, chain);
  }

  /** f_truncate, when it leaves no stray buffer. */
  method Cut(f: File) returns (a: Reply)
    requires f.Valid() && !f.stray && Cuttable(f)
    modifies f, f.fs, f.fs.win
    ensures f.Valid() && f.others == old(f.others) && f.error == old(f.error) && !f.stray
    ensures old(f.dirty ==> f.written) ==> (f.dirty ==> f.written)
    ensures Answered(f, DoTruncate, a)
    ensures f.fs.Steady() && SameElsewhere(f.fs.g, f.chain, old(f.fs.Logical()), f.fs.Logical())
  {
    hide File.Valid, File.Contents, Volume.Valid, Volume.Logical, Volume.Fat, Volume.FreeExact, Volume.Counted,
      SameElsewhere, SameRest, Zeros, Capacity, Room, Served, ImageOf, Free, CutTo, HasSect, IsCluster, Holding,
      Clust2Sect, Proper, IsChain;
    Facts(f);
    f.CoreFacts();
    BufferFacts(f);
    ImageIs(f);
    f.fs.SomeEntries();
    ghost var g, fat, chain, i, d := f.fs.g, f.fs.Fat(), f.chain, ImageOf(f), f.fs.Logical();
    ghost var n := f.fsize;
    var res := f.Truncate();
    RestElsewhere(g, f.chain, d, f.fs.Logical());
    CutStays(g, |d| / 512, chain, f.dirty, f.dsect, f.fptr, n, f.chain);
    ImageIs(f);
    a := Reply(res, [], 0);
    CutServed(g, RightsOf(f), i, fat, chain, a, ImageOf(f), f.fs.Fat(), f.chain, f.fs.EndMark());
  }

  /** f_sync, with the place of the directory entry. */
  method Save(f: File, sect: nat, off: nat, time: dword) returns (a: Reply)
    requires f.Valid() && !f.stray && off + 32 <= 512
    requires f.fs.g.fatbase + f.fs.g.FatArea() <= sect < |f.fs.disk| / 512 && !HasSect(f.fs.g, f.chain, sect)
    modifies f`dirty, f`written, f.fs, f.fs.win
    ensures f.Valid() && Answered(f, DoSync(sect, off, time), a) && (old(f.dirty ==> f.written) ==> !f.dirty)
    ensures f.fs.CountKept()
    ensures f.fs.winsect == old(f.fs.winsect) || f.fs.winsect == sect || f.fs.winsect == 0
    ensures SameBesides(f.fs.g, f.chain, sect, old(f.fs.Logical()), f.fs.Logical())
    ensures old(f.written) ==> !f.dirty && |f.fs.disk| == old(|f.fs.disk|) && f.OnMedium(sect, off)
    ensures old(f.written) ==> f.EntryWritten(old(f.fs.Logical()), sect, off, time)
  {
    hide File.Valid, File.Contents, Volume.Valid, Volume.Logical, Volume.Fat, Volume.FreeExact, Volume.Counted,
      SameBesides, Zeros, Capacity, Room, ImageOf, Free, HasSect, IsCluster, Proper, IsChain, File.OnMedium,
      File.EntryWritten;
    Facts(f);
    BufferFacts(f);
    ImageIs(f);
    var res := FrOk;
    f.Sync(sect, off, time);
    ImageIs(f);
    a := Reply(res, [], 0);
  }

  /** f_read. */
  method Fetch(f: File, count: nat) returns (a: Reply)
    requires f.Valid()
    modifies f, f.buf, f.fs, f.fs.win
    ensures f.Valid() && f.others == old(f.others) && f.error == old(f.error) && f.stray == old(f.stray)
    ensures old(f.dirty ==> f.written) ==> (f.dirty ==> f.written)
    ensures Answered(f, DoRead(count), a)
    ensures f.fs.Steady() && SameElsewhere(f.fs.g, f.chain, old(f.fs.Logical()), f.fs.Logical())
  {
    hide File.Valid, File.Contents, Volume.Valid, Volume.Logical, Volume.Fat, Volume.FreeExact, Volume.Counted,
      SameElsewhere, Zeros, Capacity, Room, ImageOf, Free;
    Facts(f);
    ImageIs(f);
    var res, data := f.Read(count);
    Facts(f);
    ImageIs(f);
    a := Reply(res, data, 0);
  }

  /** May this be asked of the file? */
  ghost predicate Legal(f: File, rest: set<seq<nat>>, q: Request)
    reads f
  {
    match q
    case DoSync(sect, off, _) => EntryPlace(f.fs.g, rest, sect, off)
    case DoTruncate => Cuttable(f)
    case _ => true
  }

  /** A sector that the request writes beside those of the file, if only one of the FAT. */
  function Aside(g: Geometry, q: Request): nat {
    if q.DoSync? then q.sect else g.fatbase
  }

  /** The sectors of directory entries that the request writes. */
  function EntrySects(q: Request): set<nat> {
    if q.DoSync? then {q.sect} else {}
  }

  /** Between two disks all else stayed: what lies before the clusters and is not part of the record of the volume, and
      the chains in `rest`, but for these sectors of directory entries. */
  ghost predicate RestKept(g: Geometry, rest: set<seq<nat>>, entries: set<nat>, a: seq<byte>, b: seq<byte>) {
    && |a| == |b|
    && forall s: nat :: s < |a| / 512 && InRest(g, rest, s) && s !in entries ==> Sector(b, s) == Sector(a, s)
  }

  ghost predicate InRest(g: Geometry, rest: set<seq<nat>>, s: nat) {
    !InRecord(g, s) && (s < g.database || exists dir :: dir in rest && HasSect(g, dir, s))
  }

  lemma RestStays(g: Geometry, rest: set<seq<nat>>, entries: set<nat>, a: seq<byte>)
    ensures RestKept(g, rest, entries, a, a)
  {
  }

  lemma RestTwice(g: Geometry, rest: set<seq<nat>>, entries: set<nat>, more: set<nat>, d0: seq<byte>, d1: seq<byte>,
                  d2: seq<byte>)
    requires RestKept(g, rest, entries, d0, d1) && RestKept(g, rest, more, d1, d2) && more <= entries
    ensures RestKept(g, rest, entries, d0, d2)
  {
    hide InRest, Sector;
  }

  /** What a call on a file leaves alone. */
  lemma BesidesRest(g: Geometry, sectors: nat, fat: seq<nat>, mine: seq<nat>, others: set<seq<nat>>, org: nat,
                    rest: set<seq<nat>>, q: Request, a: seq<byte>, b: seq<byte>)
    requires Owns(g, fat, mine, others, org) && rest <= others && g.Ok(sectors) && g.DataOk(sectors)
    requires SameBesides(g, mine, Aside(g, q), a, b)
    ensures RestKept(g, rest, EntrySects(q), a, b)
  {
    hide Owns, Proper, Apart, HasSect;
    OwnsChain(g, fat, mine, others, org);
    SectsInData(g, sectors, mine);
    forall s: nat | s < |a| / 512 && InRest(g, rest, s) && s !in EntrySects(q)
      ensures Sector(b, s) == Sector(a, s)
    {
      if s >= g.database {
        var dir :| dir in rest && HasSect(g, dir, s);
        OwnsApart(g, fat, mine, others, org, dir);
        SectApart(g, sectors, mine, dir, s);
      }
      assert InFats(g, g.fatbase);
    }
  }

  /** Serves a request to a file. */
  method Call(f: File, q: Request, ghost rest: set<seq<nat>>) returns (a: Reply)
    requires f.Valid() && !f.stray && rest <= f.others && Legal(f, rest, q)
    modifies f, f.buf, f.fs, f.fs.win
    ensures f.Valid() && !f.stray && f.others == old(f.others) && f.error == old(f.error) && Answered(f, q, a)
    ensures old(f.dirty ==> f.written) ==> (f.dirty ==> f.written && !q.DoSync?)
    ensures SameBesides(f.fs.g, f.chain, Aside(f.fs.g, q), old(f.fs.Logical()), f.fs.Logical())
    ensures f.fs.CountKept()
    ensures
      || f.fs.winsect == old(f.fs.winsect)
      || f.fs.g.InFat(f.fs.winsect)
      || f.fs.winsect == Aside(f.fs.g, q)
      || f.fs.winsect == 0
    ensures q.DoSync? && old(f.written) ==> !f.dirty && |f.fs.disk| == old(|f.fs.disk|) && |f.fs.disk| / 512 > q.sect
    ensures q.DoSync? && old(f.written) ==> q.off + 32 <= 512 && f.OnMedium(q.sect, q.off)
    ensures q.DoSync? && old(f.written) ==> f.EntryWritten(old(f.fs.Logical()), q.sect, q.off, q.time)
  {
    hide File.Valid, File.Contents, Volume.Valid, Volume.Logical, Volume.Fat, Volume.FreeExact, Volume.Counted,
      SameElsewhere, SameBesides, Served, ImageOf, Free, HasSect, EntryPlace, File.OnMedium, File.EntryWritten, Owns;
    Facts(f);
    ghost var d := f.fs.Logical();
    match q {
      case DoWrite(data) => a := Store(f, data);
      case DoRead(count) => a := Fetch(f, count);
      case DoSeek(offset) => a := Move(f, offset);
      case DoTruncate => a := Cut(f);
      case DoSync(sect, off, time) =>
        EntryAway(f.fs.g, |f.fs.disk| / 512, f.fs.Fat(), f.chain, f.others, f.orgClust, rest, sect, off);
        a := Save(f, sect, off, time);
    }
    Facts(f);
    if !q.DoSync? {
      ElsewhereBesides(f.fs.g, f.chain, f.fs.g.fatbase, d, f.fs.Logical());
    }
  }

  /** What a file that is not worked on needs of the disk and the place of the window. */
  ghost predicate Rests(o: File, d: seq<byte>, w: nat)
    reads o, o.buf
  {
    && o.fs.g.Ok(|d| / 512) && Buffered(o.fs.g, d, o.chain, o.dirty, o.dsect, o.buf[..], w)
    && InFile(o.fs.g, o.chain, false, o.dsect) && !o.stray
    && o.fs.g.csize > 0 && o.fptr <= o.fsize < 0x1_0000_0000 && Room(o.fs.g, o.chain, o.fsize)
    && o.AtCluster() && o.AtSector()
    && o.orgClust == if o.chain == [] then 0 else o.chain[0]
  }

  /** The image of a file on disk d. */
  ghost function ImageOn(o: File, d: seq<byte>): Image
    reads o, o.buf
    requires o.buf.Length == 512
  {
    Image(FileBytes(o.fs.g, d, o.chain, o.dirty, o.dsect, o.buf[..], o.fsize), o.fptr, |o.chain|)
  }

  lemma Apiece(f: File, other: File, rest: set<seq<nat>>)
    requires Together(f, other, rest)
    ensures f.Valid() && !f.stray && f.Chained() && f.fs == other.fs && f != other
    ensures (f.dirty ==> f.written) && (other.dirty ==> other.written)
    ensures other.buf != f.buf && other.buf != f.fs.win && other.buf.Length == 512
    ensures f.others == With(rest, other.chain) && rest <= f.others && other.chain !in rest && other.Chained()
    ensures f.fs.Valid() && Rests(other, f.fs.Logical(), f.fs.winsect)
    ensures ImageOf(other) == ImageOn(other, f.fs.Logical())
  {
    hide Owns, Buffered, InFile, Volume.Valid, Volume.Logical, Volume.Fat, FileBytes, Room, SectOf, IsCluster;
    other.CoreFacts();
  }

  /** After the work on one file the other one is still in order, and knows the chain of the first. */
  ghost method Adopt(f: File, other: File, rest: set<seq<nat>>, d0: seq<byte>, w0: nat, sect: nat)
    requires f.Valid() && !f.stray && f.fs == other.fs && f != other
    requires (f.dirty ==> f.written) && (other.dirty ==> other.written)
    requires other.buf != f.buf && other.buf != f.fs.win && other.buf.Length == 512
    requires f.others == With(rest, other.chain) && other.chain !in rest
    requires Rests(other, d0, w0) && !HasSect(f.fs.g, other.chain, sect)
    requires SameBesides(f.fs.g, f.chain, sect, d0, f.fs.Logical())
    requires f.fs.winsect == w0 || f.fs.g.InFat(f.fs.winsect) || f.fs.winsect == sect || f.fs.winsect == 0
    modifies other`others
    ensures Together(f, other, rest) && ImageOf(other) == ImageOn(other, d0)
  {
    hide Owns, Buffered, InFile, Volume.Valid, Volume.Logical, Volume.Fat, FileBytes, SameBesides, Room, SectOf,
      IsCluster, HasSect;
    ghost var g := f.fs.g;
    f.CoreFacts();
    StillOwns(g, f.fs.Fat(), f.chain, rest, f.orgClust, other.chain, other.orgClust);
    OtherFile(g, f.fs.Fat(), f.chain, f.others, f.orgClust, other.chain, d0, f.fs.Logical(), other.dirty, other.dsect,
              other.buf[..], w0, f.fs.winsect, other.fsize, sect);
    other.others := With(rest, f.chain);
    assert other.Core();
  }

  /** That sector is none of another file. */
  lemma AsideAway(other: File, f: File, rest: set<seq<nat>>, q: Request)
    requires Together(f, other, rest) && Legal(f, rest, q)
    ensures !HasSect(f.fs.g, other.chain, Aside(f.fs.g, q))
  {
    hide Owns, Volume.Valid, Volume.Logical, Volume.Fat, HasSect, EntryPlace;
    other.CoreFacts();
    if q.DoSync? {
      EntryAway(f.fs.g, |f.fs.disk| / 512, f.fs.Fat(), other.chain, other.others, other.orgClust, rest, q.sect, q.off);
    } else {
      SectsInData(f.fs.g, |f.fs.disk| / 512, other.chain);
    }
  }

  lemma CallRest(f: File, q: Request, rest: set<seq<nat>>, d0: seq<byte>)
    requires f.Valid() && rest <= f.others && SameBesides(f.fs.g, f.chain, Aside(f.fs.g, q), d0, f.fs.Logical())
    ensures RestKept(f.fs.g, rest, EntrySects(q), d0, f.fs.Logical())
  {
    hide Owns, Buffered, InFile, Volume.Valid, Volume.Logical, Volume.Fat, SameBesides, RestKept;
    f.CoreFacts();
    f.fs.OutsideIs();
    BesidesRest(f.fs.g, |f.fs.disk| / 512, f.fs.Fat(), f.chain, f.others, f.orgClust, rest, q, d0, f.fs.Logical());
  }

  /** Serves a request to one of two files; the user of the other one sees nothing of it. */
  method Serve(f: File, other: File, q: Request, ghost rest: set<seq<nat>>) returns (a: Reply)
    requires Together(f, other, rest) && Legal(f, rest, q)
    modifies f, f.buf, f.fs, f.fs.win, other`others
    ensures Together(f, other, rest) && f.error == old(f.error) && (q.DoSync? ==> !f.dirty)
    ensures Answered(f, q, a) && ImageOf(other) == old(ImageOf(other))
    ensures RestKept(f.fs.g, rest, EntrySects(q), old(f.fs.Logical()), f.fs.Logical())
    ensures f.fs.CountKept()
    ensures q.DoSync? && old(f.written) ==> !f.dirty && |f.fs.disk| == old(|f.fs.disk|) && |f.fs.disk| / 512 > q.sect
    ensures q.DoSync? && old(f.written) ==> q.off + 32 <= 512 && f.OnMedium(q.sect, q.off)
    ensures q.DoSync? && old(f.written) ==> f.EntryWritten(old(f.fs.Logical()), q.sect, q.off, q.time)
  {
    hide Served, File.Valid, File.Chained, File.Contents, Volume.Valid, Volume.Logical, Volume.Fat, Volume.FreeExact,
      Volume.Counted, SameBesides, HasSect, EntryPlace, File.OnMedium, File.EntryWritten, Answered, Rests, Together,
      Legal, ImageOf, FileBytes;
    Apiece(f, other, rest);
    ghost var d0, w0 := f.fs.Logical(), f.fs.winsect;
    AsideAway(other, f, rest, q);
    a := Call(f, q, rest);
    CallRest(f, q, rest, d0);
    Adopt(f, other, rest, d0, w0, Aside(f.fs.g, q));
  }

  // Runs.

  /** What the user of a file sees of a call: what it may do if it is its own, and nothing if it is on the other file. */
  ghost predicate Shown(g: Geometry, r: Rights, own: bool, i: Image, free: nat, q: Request, a: Reply, j: Image,
                        left: nat) {
    if own then Served(g, r, i, free, q, a, j, left) else j == i
  }

  /** Serves a request to the file it is meant for. */
  method Turn(a: File, b: File, forA: bool, q: Request, ghost rest: set<seq<nat>>) returns (r: Reply)
    requires Together(a, b, rest) && Legal(if forA then a else b, rest, q)
    modifies a, a.buf, b, b.buf, a.fs, a.fs.win
    ensures Together(a, b, rest) && RightsOf(a) == old(RightsOf(a)) && RightsOf(b) == old(RightsOf(b))
    ensures Shown(a.fs.g, RightsOf(a), forA, old(ImageOf(a)), old(Free(a.fs)), q, r, ImageOf(a), Free(a.fs))
    ensures Shown(a.fs.g, RightsOf(b), !forA, old(ImageOf(b)), old(Free(a.fs)), q, r, ImageOf(b), Free(a.fs))
    ensures RestKept(a.fs.g, rest, EntrySects(q), old(a.fs.Logical()), a.fs.Logical())
    ensures a.fs.CountKept()
  {
    hide Served, Together, ImageOf, Free, Legal, File.Chained, File.Valid, File.Contents, Volume.FreeExact,
      Volume.Counted, RestKept;
    InOrder(a, b, rest);
    if forA {
      r := Serve(a, b, q, rest);
    } else {
      TurnAround(a, b, rest);
      r := Serve(b, a, q, rest);
      TurnAround(b, a, rest);
    }
    InOrder(a, b, rest);
  }

  lemma InOrder(a: File, b: File, rest: set<seq<nat>>)
    requires Together(a, b, rest)
    ensures a.Chained() && b.Chained() && a != b && a.fs == b.fs && a.buf != b.buf && a.fs.Valid()
  {
  }

  lemma TurnAround(a: File, b: File, rest: set<seq<nat>>)
    requires Together(a, b, rest)
    ensures Together(b, a, rest)
  {
  }

  /** What the user of a file sees over a run: from one image to another, through one after each call. The numbers of
      free clusters are those in between. */
  ghost predicate Seen(g: Geometry, r: Rights, isA: bool, first: Image, qs: seq<(bool, Request)>, rs: seq<Reply>,
                       images: seq<Image>, free: seq<nat>, last: Image) {
    && |rs| <= |qs| && |images| == |free| == |rs| + 1 && images[0] == first && images[|rs|] == last
    && forall k :: 0 <= k < |rs| ==>
         Shown(g, r, qs[k].0 == isA, images[k], free[k], qs[k].1, rs[k], images[k + 1], free[k + 1])
  }

  /** What both see of a run, from images i0 and j0 and n0 free clusters on to i, j and n. */
  ghost predicate BothSee(g: Geometry, ra: Rights, rb: Rights, i0: Image, j0: Image, n0: nat, qs: seq<(bool, Request)>,
                          rs: seq<Reply>, ia: seq<Image>, ib: seq<Image>, free: seq<nat>, i: Image, j: Image, n: nat) {
    && Seen(g, ra, true, i0, qs, rs, ia, free, i)
    && Seen(g, rb, false, j0, qs, rs, ib, free, j)
    && free[0] == n0 && free[|rs|] == n
  }

  lemma SeenMore(g: Geometry, r: Rights, isA: bool, first: Image, qs: seq<(bool, Request)>, rs: seq<Reply>,
                 images: seq<Image>, free: seq<nat>, last: Image, a: Reply, image: Image, left: nat)
    requires |rs| < |qs| && Seen(g, r, isA, first, qs, rs, images, free, last)
    requires Shown(g, r, qs[|rs|].0 == isA, last, free[|rs|], qs[|rs|].1, a, image, left)
    ensures Seen(g, r, isA, first, qs, rs + [a], images + [image], free + [left], image)
  {
    hide Shown;
  }

  lemma BothSeeMore(g: Geometry, ra: Rights, rb: Rights, i0: Image, j0: Image, n0: nat, qs: seq<(bool, Request)>,
                    rs: seq<Reply>, ia: seq<Image>, ib: seq<Image>, free: seq<nat>, i: Image, j: Image, n: nat,
                    a: Reply, i1: Image, j1: Image, n1: nat)
    requires |rs| < |qs| && BothSee(g, ra, rb, i0, j0, n0, qs, rs, ia, ib, free, i, j, n)
    requires Shown(g, ra, qs[|rs|].0, i, n, qs[|rs|].1, a, i1, n1)
    requires Shown(g, rb, !qs[|rs|].0, j, n, qs[|rs|].1, a, j1, n1)
    ensures BothSee(g, ra, rb, i0, j0, n0, qs, rs + [a], ia + [i1], ib + [j1], free + [n1], i1, j1, n1)
  {
    SeenMore(g, ra, true, i0, qs, rs, ia, free, i, a, i1, n1);
    SeenMore(g, rb, false, j0, qs, rs, ib, free, j, a, j1, n1);
  }

  lemma BothSeeNothing(g: Geometry, ra: Rights, rb: Rights, qs: seq<(bool, Request)>, i: Image, j: Image, n: nat)
    ensures BothSee(g, ra, rb, i, j, n, qs, [], [i], [j], [n], i, j, n)
  {
  }

  /** Does the call leave the file it is meant for in order? */
  method KeepsOrder(a: File, b: File, forA: bool, q: Request, ghost rest: set<seq<nat>>) returns (fine: bool)
    requires Together(a, b, rest) && (q.DoSync? ==> EntryPlace(a.fs.g, rest, q.sect, q.off))
    ensures if fine then Legal(if forA then a else b, rest, q) else q.DoTruncate? && !Cuttable(if forA then a else b)
  {
    hide Cuttable, KeepsBuffer, File.Valid;
    CuttableIs(if forA then a else b);
    fine := !q.DoTruncate? || KeepsBuffer(if forA then a else b);
  }

  /** The sectors of directory entries that the requests write. */
  function Entries(qs: seq<(bool, Request)>): set<nat> {
    set q | q in qs && q.1.DoSync? :: q.1.sect
  }

  /** One call more. */
  method Round(a: File, b: File, qs: seq<(bool, Request)>, ghost rest: set<seq<nat>>, ghost i0: Image, ghost j0: Image,
               ghost n0: nat, before: seq<Reply>, ghost ia0: seq<Image>, ghost ib0: seq<Image>, ghost free0: seq<nat>)
      returns (rs: seq<Reply>, ghost ia: seq<Image>, ghost ib: seq<Image>, ghost free: seq<nat>)
    requires Together(a, b, rest) && |before| < |qs| && EntrySects(qs[|before|].1) <= Entries(qs)
    requires Legal(if qs[|before|].0 then a else b, rest, qs[|before|].1)
    requires BothSee(a.fs.g, RightsOf(a), RightsOf(b), i0, j0, n0, qs, before, ia0, ib0, free0, ImageOf(a), ImageOf(b),
                     Free(a.fs))
    modifies a, a.buf, b, b.buf, a.fs, a.fs.win
    ensures Together(a, b, rest) && RightsOf(a) == old(RightsOf(a)) && RightsOf(b) == old(RightsOf(b))
    ensures |rs| == |before| + 1
    ensures RestKept(a.fs.g, rest, Entries(qs), old(a.fs.Logical()), a.fs.Logical())
    ensures BothSee(a.fs.g, RightsOf(a), RightsOf(b), i0, j0, n0, qs, rs, ia, ib, free, ImageOf(a), ImageOf(b),
                    Free(a.fs))
    ensures a.fs.CountKept()
  {
    hide Together, ImageOf, Free, File.Chained, File.Valid, File.Contents, Shown, BothSee, Legal, Volume.FreeExact,
      Volume.Counted, Volume.Valid, Volume.Fat, RightsOf, RestKept, EntrySects, Volume.Logical;
    InOrder(a, b, rest);
    ghost var g, i, j, n, d := a.fs.g, ImageOf(a), ImageOf(b), Free(a.fs), a.fs.Logical();
    RestStays(g, rest, Entries(qs), d);
    var r := Turn(a, b, qs[|before|].0, qs[|before|].1, rest);
    InOrder(a, b, rest);
    RestTwice(g, rest, Entries(qs), EntrySects(qs[|before|].1), d, d, a.fs.Logical());
    rs, ia, ib, free := before + [r], ia0 + [ImageOf(a)], ib0 + [ImageOf(b)], free0 + [Free(a.fs)];
    BothSeeMore(g, RightsOf(a), RightsOf(b), i0, j0, n0, qs, before, ia0, ib0, free0, i, j, n, r, ImageOf(a), ImageOf(b),
                Free(a.fs));
  }

  /** Any calls on two files of a volume, in any order: each file is a byte sequence of its own. Only an f_truncate that
      would leave a stray buffer ends the run early. */
  method Run(a: File, b: File, qs: seq<(bool, Request)>, ghost rest: set<seq<nat>>)
      returns (rs: seq<Reply>, ghost ia: seq<Image>, ghost ib: seq<Image>, ghost free: seq<nat>)
    requires Together(a, b, rest)
    requires forall q :: q in qs && q.1.DoSync? ==> EntryPlace(a.fs.g, rest, q.1.sect, q.1.off)
    modifies a, a.buf, b, b.buf, a.fs, a.fs.win
    ensures Together(a, b, rest)
    ensures BothSee(a.fs.g, old(RightsOf(a)), old(RightsOf(b)), old(ImageOf(a)), old(ImageOf(b)), old(Free(a.fs)), qs, rs,
                    ia, ib, free, ImageOf(a), ImageOf(b), Free(a.fs))
    ensures |rs| == |qs| || (|rs| < |qs| && qs[|rs|].1.DoTruncate? && !Cuttable(if qs[|rs|].0 then a else b))
    ensures RestKept(a.fs.g, rest, Entries(qs), old(a.fs.Logical()), a.fs.Logical())
    ensures a.fs.CountKept()
  {
    hide Together, ImageOf, Free, File.Chained, File.Valid, File.Contents, Shown, BothSee, EntryPlace, Cuttable, Legal,
      Volume.FreeExact, Volume.Counted, Volume.Valid, Volume.Fat, RightsOf, RestKept, Volume.Logical;
    InOrder(a, b, rest);
    rs, ia, ib, free := [], [ImageOf(a)], [ImageOf(b)], [Free(a.fs)];
    ghost var g, ra, rb, i0, j0, n0 := a.fs.g, RightsOf(a), RightsOf(b), ImageOf(a), ImageOf(b), Free(a.fs);
    BothSeeNothing(g, ra, rb, qs, i0, j0, n0);
    ghost var d0 := a.fs.Logical();
    RestStays(g, rest, Entries(qs), d0);
    while |rs| < |qs|
      invariant |rs| <= |qs| && Together(a, b, rest) && a.Chained() && b.Chained() && a.fs == b.fs && a.fs.Valid()
      invariant RightsOf(a) == ra && RightsOf(b) == rb && a.fs.CountKept()
      invariant RestKept(g, rest, Entries(qs), d0, a.fs.Logical())
      invariant BothSee(g, ra, rb, i0, j0, n0, qs, rs, ia, ib, free, ImageOf(a), ImageOf(b), Free(a.fs))
    {
      var q := qs[|rs|];
      assert q in qs;
      var fine := KeepsOrder(a, b, q.0, q.1, rest);
      if !fine {
        return;
      }
      ghost var d := a.fs.Logical();
      rs, ia, ib, free := Round(a, b, qs, rest, i0, j0, n0, rs, ia, ib, free);
      InOrder(a, b, rest);
      RestTwice(g, rest, Entries(qs), Entries(qs), d0, d, a.fs.Logical());
    }
  }

  // A stray buffer.

  /** Sector s lies in cluster c, which is free. */
  predicate InFreeCluster(g: Geometry, fat: seq<nat>, c: nat, s: nat) {
    InRange(fat, c) && fat[c] == 0 && Clust2Sect(g, c) <= s < Clust2Sect(g, c) + g.csize
  }

  /** The only difference between two disks is sector s, which begins with x in the second. */
  predicate Overwritten(before: seq<byte>, after: seq<byte>, s: nat, buf: seq<byte>, x: byte) {
    |buf| == 512 && 512 * s + 512 <= |before| && after == Splice(before, 512 * s, buf) && buf[0] == x
  }

  /** Writes a byte at the front of a file and seeks back to it; the byte is in the buffer then. */
  method WriteFront(f: File, x: byte) returns (done: bool)
    requires f.Valid() && !f.error && f.canWrite && f.fsize + 1 < 0x1_0000_0000
    modifies f, f.buf, f.fs, f.fs.win
    ensures f.Valid() && !f.error && (!done ==> NoneFree(f.fs.Fat()))
    ensures done ==> f.dirty && f.fptr == 0 < f.fsize && f.chain != [] && f.dsect == SectOf(f.fs.g, f.chain, 0)
    ensures done ==> f.buf[0] == x
  {
    hide File.Core, File.Chained, File.Bytes, Volume.Valid, Volume.Logical, Volume.Fat, Volume.FreeExact,
      Volume.Counted, SameElsewhere, NoneFree, SectOf, File.Contents;
    var res := f.Seek(0);
    var bw;
    res, bw := f.Write([x]);
    done := bw == 1;
    if done {
      ghost var c := f.chain;
      Front(f, x);
      res := f.Seek(0);
      f.CoreFacts();
      SectPrefix(f.fs.g, c, f.chain, 0);
    }
  }

  lemma Front(f: File, x: byte)
    requires f.Valid() && f.dirty && f.fptr == 1 && f.Contents()[0] == x
    ensures f.chain != [] && f.dsect == SectOf(f.fs.g, f.chain, 0) && f.buf[0] == x
  {
    hide SectOf, Owns, Buffered, InFile, Room, FileBytes, Volume.Valid, Volume.Logical, Volume.Fat;
    FrontByte(f.fs.g, f.fs.Logical(), f.chain, f.dsect, f.buf[..], f.fsize);
  }

  lemma FrontByte(g: Geometry, disk: seq<byte>, chain: seq<nat>, dsect: nat, buf: seq<byte>, n: nat)
    requires |buf| == 512 && n > 0 && dsect == SectOf(g, chain, 0)
    ensures FileBytes(g, disk, chain, true, dsect, buf, n)[0] == buf[0]
  {
    hide SectOf;
  }

  /** What a cut at the front leaves when the buffer is dirty with the first sector. */
  lemma Stranded(g: Geometry, fat: seq<nat>, chain: seq<nat>, now: seq<nat>, e: nat, disk: seq<byte>, dsect: nat,
                 buf: seq<byte>, w: nat, v: nat)
    requires chain != [] && CutTo(fat, chain, [], now, e) && |fat| == g.nFatent && Proper(g, chain)
    requires g.Ok(|disk| / 512)
    requires dsect == SectOf(g, chain, 0) && Buffered(g, disk, chain, true, dsect, buf, w) && (v == w || g.InFat(v))
    ensures InFreeCluster(g, now, chain[0], dsect) && g.database <= dsect < |disk| / 512 && v != dsect
    ensures !HasSect(g, [], dsect)
  {
    hide IsChain, SectOf, Clust2Sect;
    SectRange(g, |disk| / 512, chain, 0);
    InChain(g, chain, 0);
    NoSect(g, dsect);
    FirstSect(g, chain);
    assert !HasSect(g, chain, w);
  }

  lemma FirstSect(g: Geometry, chain: seq<nat>)
    requires g.csize > 0 && chain != []
    ensures SectOf(g, chain, 0) == Clust2Sect(g, chain[0])
  {
  }

  /** Writes a byte at the front of a file, seeks back to it, and cuts the file there. The file is not in order then: its
      buffer is dirty with a sector of a free cluster. */
  method Strand(f: File, x: byte) returns (done: bool, c: nat)
    requires f.Valid() && !f.error && f.canWrite && f.fsize + 1 < 0x1_0000_0000
    modifies f, f.buf, f.fs, f.fs.win
    ensures f.Chained() && (!done ==> NoneFree(f.fs.Fat()))
    ensures done ==> !f.Valid() && f.dirty && f.chain == [] && f.buf[0] == x
    ensures done ==> InFreeCluster(f.fs.g, f.fs.Fat(), c, f.dsect)
    ensures done ==> f.fs.g.database <= f.dsect < |f.fs.Logical()| / 512 && f.fs.winsect != f.dsect
    ensures done ==> !HasSect(f.fs.g, [], f.dsect)
  {
    hide Owns, Buffered, CutTo, InFreeCluster, Volume.Valid, Volume.Logical, Volume.Fat, Volume.FreeExact,
      Volume.Counted, HasSect, Room, FileBytes;
    done := WriteFront(f, x);
    c := f.orgClust;
    if !done {
      return;
    }
    f.CoreFacts();
    ghost var g, fat, chain, disk, w := f.fs.g, f.fs.Fat(), f.chain, f.fs.Logical(), f.fs.winsect;
    var res := f.Truncate();
    f.fs.OutsideIs();
    Stranded(g, fat, chain, f.fs.Fat(), f.fs.EndMark(), disk, f.dsect, f.buf[..], w, f.fs.winsect);
  }

  /** After that run the write-back of a later call puts the byte into the free cluster, whatever is there. The run fails
      only on a full disk. */
  method StrayIsReached(f: File, x: byte) returns (done: bool, c: nat, ghost before: seq<byte>)
    requires f.Valid() && !f.error && f.canWrite && f.fsize + 1 < 0x1_0000_0000
    modifies f, f.buf, f.fs, f.fs.win
    ensures f.Chained() && (!done ==> NoneFree(f.fs.Fat()))
    ensures done ==> !f.Valid() && InFreeCluster(f.fs.g, f.fs.Fat(), c, f.dsect)
    ensures done ==> Overwritten(before, f.fs.Logical(), f.dsect, f.buf[..], x)
    ensures done && before[512 * f.dsect] != x ==> !SameElsewhere(f.fs.g, f.chain, before, f.fs.Logical())
  {
    hide File.Valid, Owns, InFreeCluster, Volume.Valid, Volume.Logical, Volume.Fat, HasSect, SameElsewhere;
    done, c := Strand(f, x);
    before := f.fs.Logical();
    if done {
      f.fs.OutsideIs();
      f.fs.DiskWrite(f.dsect, f.buf[..]);
      NotInOrder(f);
      if before[512 * f.dsect] != x {
        assert Sector(before, f.dsect)[0] != f.buf[..][0];
        StrayFlush(f.fs.g, before, f.chain, f.dsect, f.buf[..]);
      }
    }
  }

  lemma NotInOrder(f: File)
    requires f.dirty && !HasSect(f.fs.g, f.chain, f.dsect)
    ensures !f.Valid()
  {
    hide File.Core;
    if f.Valid() {
      f.DirtyInFile();
    }
  }
}
