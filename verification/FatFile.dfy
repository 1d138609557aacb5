/** Byte-addressed files: a sector buffer over a cluster chain (f_read, f_write, f_lseek, f_truncate, f_sync). */
module FatFile {
  import opened Bytes
  import opened Common
  import opened FatChains
  import opened FatCodec
  import opened FatEntry
  import opened FatLayout
  import opened FatVolume

  datatype FResult = FrOk | FrIntErr | FrDenied

  /** The file owns one chain of the volume's forest; the others belong to other files and directories. */
  ghost predicate Owns(g: Geometry, fat: seq<nat>, chain: seq<nat>, others: set<seq<nat>>, org: nat) {
    && |fat| == g.nFatent
    && g.Marked()
    && chain !in others
    && Forest(fat, others + if chain == [] then {} else {chain})
    && org == (if chain == [] then 0 else chain[0])
  }

  /** The buffer is dirty only with a sector of the file, else it equals the sector it names; the volume's window
      is elsewhere. */
  ghost predicate Buffered(g: Geometry, disk: seq<byte>, chain: seq<nat>, dirty: bool, dsect: nat, buf: seq<byte>,
                           w: nat) {
    && |buf| == 512
    && g.DataOk(|disk| / 512)
    && (dirty ==> HasSect(g, chain, dsect))
    && (!dirty && dsect != 0 ==> g.database <= dsect < |disk| / 512 && buf == Sector(disk, dsect))
    && !HasSect(g, chain, w)
  }

  /** The buffer names no sector, or one of the file, unless it is stray. */
  ghost predicate InFile(g: Geometry, chain: seq<nat>, stray: bool, dsect: nat) {
    stray || dsect == 0 || HasSect(g, chain, dsect)
  }

  lemma InFileMore(g: Geometry, chain: seq<nat>, longer: seq<nat>, stray: bool, dsect: nat)
    requires InFile(g, chain, stray, dsect) && chain <= longer
    ensures InFile(g, longer, stray, dsect)
  {
    hide SectOf;
    if HasSect(g, chain, dsect) {
      var q: nat :| g.csize > 0 && q / g.csize < |chain| && SectOf(g, chain, q) == dsect;
      SectPrefix(g, chain, longer, q);
    }
  }

  lemma InFileAt(g: Geometry, sectors: nat, chain: seq<nat>, stray: bool, q: nat)
    requires g.DataOk(sectors) && Proper(g, chain) && InRun(g, chain, q, 1)
    ensures InFile(g, chain, stray, SectOf(g, chain, q))
  {
    RunHasSects(g, sectors, chain, q, 1);
    hide HasSect, SectOf;
  }

  lemma OwnsChain(g: Geometry, fat: seq<nat>, chain: seq<nat>, others: set<seq<nat>>, org: nat)
    requires Owns(g, fat, chain, others, org)
    ensures Proper(g, chain) && NoOnes(fat) && g.Marked()
    ensures chain != [] ==> IsChain(fat, chain) && org == chain[0]
    ensures chain == [] <==> org == 0
  {
    ForestNoOnes(fat, others + if chain == [] then {} else {chain});
    if chain != [] {
      assert chain in others + {chain};
    }
    ChainProper(g, fat, chain);
  }

  /** Allocation behind the last cluster, or of the first one. */
  lemma OwnsMore(g: Geometry, fat: seq<nat>, chain: seq<nat>, others: set<seq<nat>>, org: nat, c: nat, e: nat)
    requires Owns(g, fat, chain, others, org) && InRange(fat, c) && fat[c] == 0 && e >= |fat|
    ensures chain != [] ==> InRange(fat, chain[|chain| - 1])
    ensures
      Owns(g, Linked(fat, if chain == [] then 0 else chain[|chain| - 1], c, e), chain + [c], others,
           if chain == [] then c else org)
  {
    var cs := others + if chain == [] then {} else {chain};
    OwnsChain(g, fat, chain, others, org);
    LongerIsNew(fat, cs, others, chain, c);
    if chain != [] {
      Ends(fat, chain);
    }
    assert Forest(fat, cs);
    hide Forest, IsChain, Linked;
    if chain == [] {
      NewChain(fat, cs, c, e);
      assert chain + [c] == [c] && cs + {[c]} == others + {chain + [c]};
    } else {
      StretchChain(fat, cs, chain, c, e);
      assert cs - {chain} + {chain + [c]} == others + {chain + [c]};
    }
  }

  lemma LongerIsNew(fat: seq<nat>, cs: set<seq<nat>>, others: set<seq<nat>>, chain: seq<nat>, c: nat)
    requires Forest(fat, cs) && others <= cs && InRange(fat, c) && fat[c] == 0
    ensures chain + [c] !in others
  {
  }

  /** The file keeps its first k + 1 clusters. */
  lemma OwnsLess(g: Geometry, fat: seq<nat>, chain: seq<nat>, others: set<seq<nat>>, org: nat, k: nat, e: nat)
    requires Owns(g, fat, chain, others, org) && k < |chain| && e >= |fat|
    ensures IsChain(fat, chain)
    ensures Owns(g, Truncated(fat, chain, k, e), chain[..k + 1], others, org)
  {
    var cs := others + {chain};
    OwnsChain(g, fat, chain, others, org);
    TruncateChain(fat, cs, chain, k, e);
    assert cs - {chain} == others;
    assert chain[..k + 1] !in others by {
      forall other | other in others ensures other != chain[..k + 1] {
        assert Apart(other, chain);
      }
    }
  }

  /** The file gives up its chain. */
  lemma OwnsNone(g: Geometry, fat: seq<nat>, chain: seq<nat>, others: set<seq<nat>>, org: nat)
    requires Owns(g, fat, chain, others, org) && chain != []
    ensures Freed(fat, org) == chain
    ensures Owns(g, Zeroed(fat, chain), [], others, 0)
  {
    var cs := others + {chain};
    OwnsChain(g, fat, chain, others, org);
    FreedChain(fat, chain);
    DropChain(fat, cs, chain);
    assert cs - {chain} == others && others + {} == others;
    forall other | other in others ensures |other| > 0 {
    }
  }

  /** The buffer of a file that keeps a front of its chain stays right exactly if it is not dirty with a sector given up;
      the bytes in that front stay. */
  lemma BufferedLess(g: Geometry, a: seq<byte>, b: seq<byte>, chain: seq<nat>, kept: seq<nat>, dirty: bool, dsect: nat,
                     buf: seq<byte>, w: nat, v: nat, n: nat)
    requires Buffered(g, a, chain, dirty, dsect, buf, w) && SameRest(g, a, b) && g.Ok(|a| / 512) && g.Ok(|b| / 512)
    requires kept <= chain && Proper(g, chain) && g.InFat(v) && Room(g, kept, n)
    ensures Buffered(g, b, kept, dirty, dsect, buf, v) <==> (dirty ==> HasSect(g, kept, dsect))
    ensures FileBytes(g, b, kept, dirty, dsect, buf, n) == FileBytes(g, a, chain, dirty, dsect, buf, n)
  {
    GrowSame(g, b, a, kept, chain, dirty, dsect, buf, n);
    hide SectOf, SameRest, Room, FileBytes;
    if !dirty && dsect != 0 {
      SameSector(g, a, b, dsect);
    }
    forall q: nat | q / g.csize < |kept| ensures SectOf(g, kept, q) != v {
      SectRange(g, |a| / 512, kept, q);
    }
  }

  /** With data sectors as before and the window on a FAT sector or where it was, the buffer stays right. */
  lemma BufferedMore(g: Geometry, a: seq<byte>, b: seq<byte>, chain: seq<nat>, longer: seq<nat>, dirty: bool,
                     dsect: nat, buf: seq<byte>, w: nat, v: nat)
    requires Buffered(g, a, chain, dirty, dsect, buf, w) && SameRest(g, a, b) && |a| == |b| && g.Ok(|a| / 512)
    requires chain <= longer && Proper(g, longer)
    requires g.InFat(v) || (v == w && longer == chain)
    ensures Buffered(g, b, longer, dirty, dsect, buf, v) && g.DataOk(|a| / 512)
  {
    hide SectOf, Clust2Sect, Proper, SameRest;
    if dirty {
      var q: nat :| q / g.csize < |chain| && SectOf(g, chain, q) == dsect;
      SectPrefix(g, chain, longer, q);
      assert HasSect(g, longer, dsect);
    } else if dsect != 0 {
      SameSector(g, a, b, dsect);
    }
    if g.InFat(v) {
      forall q: nat | q / g.csize < |longer| ensures SectOf(g, longer, q) != v {
        SectRange(g, |a| / 512, longer, q);
      }
    }
  }

  /** From one table and chain to the next: the chain only grew, by clusters that were free, no other cluster became
      free, and none that the file did not take is lost. */
  ghost predicate Grew(fat: seq<nat>, before: seq<nat>, now: seq<nat>, after: seq<nat>) {
    && before <= after
    && |now| == |fat|
    && (forall i :: |before| <= i < |after| ==> InRange(fat, after[i]) && fat[after[i]] == 0)
    && (forall c :: InRange(fat, c) && now[c] == 0 ==> fat[c] == 0)
    && Zeros(now) + |after| == Zeros(fat) + |before|
  }

  /** The disk is full, and the clusters of the file end at offset p. */
  ghost predicate Full(g: Geometry, fat: seq<nat>, chain: seq<nat>, p: nat) {
    NoneFree(fat) && !Room(g, chain, p + 1)
  }

  lemma GrewTwice(f0: seq<nat>, c0: seq<nat>, f1: seq<nat>, c1: seq<nat>, f2: seq<nat>, c2: seq<nat>)
    requires Grew(f0, c0, f1, c1) && Grew(f1, c1, f2, c2)
    ensures Grew(f0, c0, f2, c2)
  {
  }

  lemma GrewByOne(fat: seq<nat>, chain: seq<nat>, prev: nat, c: nat, e: nat)
    requires InRange(fat, c) && fat[c] == 0 && e > 0 && (prev == 0 || (InRange(fat, prev) && fat[prev] != 0))
    ensures Grew(fat, chain, Linked(fat, prev, c, e), chain + [c])
  {
    LinkedZeros(fat, prev, c, e, c);
    hide Zeros;
  }

  lemma GrewNot(fat: seq<nat>, chain: seq<nat>)
    ensures Grew(fat, chain, fat, chain)
  {
  }

  /** What create_chain behind the first k clusters does to a file: it follows the chain, or makes it longer. */
  lemma AfterCreate(g: Geometry, fat: seq<nat>, chain: seq<nat>, others: set<seq<nat>>, org: nat, k: nat,
                    hint: nat, r: nat, now: seq<nat>, e: nat, link: nat)
    requires Owns(g, fat, chain, others, org) && e >= g.nFatent && k <= |chain| && (k == 0 ==> chain == [])
    requires Created(fat, if k == 0 then 0 else chain[k - 1], hint, r, now, e, link) && (r < g.nFatent ==> link == r)
    ensures k < |chain| ==> r == chain[k] && now == fat
    ensures k == |chain| && r == 0 ==> NoneFree(fat) && now == fat
    ensures k == |chain| && r != 0 ==>
      && InRange(fat, r)
      && fat[r] == 0
      && Owns(g, now, chain + [r], others, if chain == [] then r else org)
      && Proper(g, chain + [r])
    ensures Grew(fat, chain, now, if k == |chain| && r != 0 then chain + [r] else chain)
  {
    OwnsChain(g, fat, chain, others, org);
    if k > 0 {
      Link(fat, chain, k - 1);
    }
    hide Owns, Forest, IsChain, Grew, NoOnes, Linked, NoneFree, Proper;
    GrewNot(fat, chain);
    if k == |chain| && r != 0 {
      GrewByOne(fat, chain, if k == 0 then 0 else chain[k - 1], r, e);
      OwnsMore(g, fat, chain, others, org, r, e);
      OwnsChain(g, now, chain + [r], others, if chain == [] then r else org);
    }
  }

  lemma BufferedIs(g: Geometry, disk: seq<byte>, chain: seq<nat>, dirty: bool, dsect: nat, buf: seq<byte>, w: nat)
    requires Buffered(g, disk, chain, dirty, dsect, buf, w)
    ensures |buf| == 512 && g.DataOk(|disk| / 512)
  {
  }

  /** A buffer dirty with a sector of the file is right whatever it holds. */
  lemma BufferedDirty(g: Geometry, disk: seq<byte>, chain: seq<nat>, dirty: bool, dsect: nat, buf: seq<byte>, w: nat,
                      q: nat)
    requires Buffered(g, disk, chain, dirty, dsect, buf, w) && g.Ok(|disk| / 512)
    requires q / g.csize < |chain| && Proper(g, chain)
    ensures forall b: seq<byte> :: |b| == 512 ==> Buffered(g, disk, chain, true, SectOf(g, chain, q), b, w)
    ensures SectOf(g, chain, q) < |disk| / 512
    ensures !dirty && dsect == SectOf(g, chain, q) ==> buf == Sector(disk, dsect)
  {
    SectRange(g, |disk| / 512, chain, q);
    hide SectOf, Proper;
  }

  /** Whole sectors of the file are away from the volume's window, and writing them with a refill of the buffer
      keeps the buffer right. */
  lemma BufferedDirect(g: Geometry, disk: seq<byte>, chain: seq<nat>, dsect: nat, buf: seq<byte>, v: nat,
                       s: nat, w: seq<byte>)
    requires Buffered(g, disk, chain, false, dsect, buf, v) && |w| % 512 == 0 && 512 * s + |w| <= |disk|
    requires forall i :: s <= i < s + |w| / 512 ==> HasSect(g, chain, i)
    ensures v < s || s + |w| / 512 <= v
    ensures Buffered(g, Splice(disk, 512 * s, w), chain, false, dsect, Refilled(dsect, buf, s, w), v)
  {
  }

  /** The buffer after sectors from s on were written past it. */
  function Refilled(dsect: nat, buf: seq<byte>, s: nat, w: seq<byte>): (r: seq<byte>)
    requires |buf| == 512
    ensures |r| == 512
  {
    if s <= dsect < s + |w| / 512 then w[512 * (dsect - s)..512 * (dsect - s) + 512] else buf
  }

  lemma SlicesJoin(c: seq<byte>, p: nat, q: nat, r: nat, a: seq<byte>, b: seq<byte>)
    requires p <= q <= r <= |c| && a == c[p..q] && b == c[q..r]
    ensures a + b == c[p..r]
  {
  }

  /** The table after a file gives up the clusters of its chain behind those kept. */
  ghost predicate CutTo(fat: seq<nat>, chain: seq<nat>, kept: seq<nat>, now: seq<nat>, e: nat) {
    && kept <= chain
    && (chain == [] || IsChain(fat, chain))
    && now == if kept == chain then fat else if kept == [] then Zeroed(fat, chain)
      else Truncated(fat, chain, |kept| - 1, e)
  }

  /** The clusters given up become free, and no others. */
  lemma CutZeros(fat: seq<nat>, chain: seq<nat>, kept: seq<nat>, now: seq<nat>, e: nat)
    requires CutTo(fat, chain, kept, now, e) && e > 0
    ensures |now| == |fat| && Zeros(now) + |kept| == Zeros(fat) + |chain|
  {
    hide Zeros;
    if kept != chain {
      ChainNonzero(fat, chain);
      hide IsChain;
      if kept == [] {
        ZeroedCount(fat, chain);
      } else {
        TruncatedCount(fat, chain, |kept| - 1, e);
      }
    }
  }

  lemma PatchMore(c: seq<byte>, p: nat, data: seq<byte>, n: nat, more: nat)
    requires p <= |c| && n + more <= |data|
    ensures Patch(Patch(c, p, data[..n]), p + n, data[n..][..more]) == Patch(c, p, data[..n + more])
  {
    PatchTwice(c, p, data[..n], data[n..][..more]);
    assert data[..n] + data[n..][..more] == data[..n + more];
  }

  /** Two steps of work on a file are one. */
  lemma GrewOn(g: Geometry, f0: seq<nat>, c0: seq<nat>, d0: seq<byte>, f1: seq<nat>, c1: seq<nat>, d1: seq<byte>,
               f2: seq<nat>, c2: seq<nat>, d2: seq<byte>)
    requires Grew(f0, c0, f1, c1) && Grew(f1, c1, f2, c2) && Size(g.csize)
    requires SameElsewhere(g, c1, d0, d1) && SameElsewhere(g, c2, d1, d2)
    ensures Grew(f0, c0, f2, c2) && SameElsewhere(g, c2, d0, d2)
  {
    GrewTwice(f0, c0, f1, c1, f2, c2);
    ElsewhereTwice(g, c1, c2, d0, d1, d2);
  }

  class File {
    const fs: Volume
    const buf: array<byte>
    const canRead: bool
    const canWrite: bool
    var error: bool
    var written: bool     // the directory entry must be updated
    var dirty: bool       // the buffer must be written back
    var fptr: nat
    var fsize: nat
    var orgClust: nat     // first cluster, 0 for none
    var currClust: nat    // cluster of byte fptr - 1
    var dsect: nat        // sector in the buffer, 0 for none
    ghost var stray: bool // did the file give up the sector in the buffer?
    ghost var chain: seq<nat>
    ghost var others: set<seq<nat>>

    /** A file object for a chain found in the directory. */
    constructor Open(v: Volume, clust: nat, size: nat, rd: bool, wr: bool, ghost ch: seq<nat>,
                     ghost rest: set<seq<nat>>)
      requires v.Valid() && v.g.DataOk(|v.disk| / 512)
      requires Owns(v.g, v.Fat(), ch, rest, clust) && Room(v.g, ch, size) && size < 0x1_0000_0000
      requires !HasSect(v.g, ch, v.winsect)
      ensures fs == v && fresh(buf) && chain == ch && others == rest && canRead == rd && canWrite == wr
      ensures Valid() && fptr == 0 && fsize == size && !error && !stray && !written && !dirty
    {
      hide Owns, Volume.Valid, Volume.Logical, Volume.Fat, HasSect;
      v.OutsideIs();
      fs, canRead, canWrite := v, rd, wr;
      buf := new byte[512](_ => 0);
      error, written, dirty, fptr, fsize, orgClust, currClust, dsect := false, false, false, 0, size, clust, 0, 0;
      stray, chain, others := false, ch, rest;
    }

    /** The file owns its chain. */
    ghost predicate Chained()
      reads `orgClust, `chain, `others, fs, fs.win, buf
      ensures Chained() ==> fs.Valid() && buf.Length == 512
    {
      && buf.Length == 512
      && buf != fs.win
      && fs.Valid()
      && Owns(fs.g, fs.Fat(), chain, others, orgClust) == true
    }

    /** Everything but the file pointer is in order. */
    ghost predicate Core()
      reads `dirty, `dsect, `stray, `orgClust, `chain, `others, fs, fs.win, buf
      ensures Core() ==> Chained() && fs.Valid() && buf.Length == 512
    {
      && Chained()
      && Buffered(fs.g, fs.Logical(), chain, dirty, dsect, buf[..], fs.winsect) == true
      && InFile(fs.g, chain, stray, dsect) == true
    }

    /** The current cluster is the one of byte fptr - 1. */
    ghost predicate AtCluster()
      reads `fptr, `currClust, `chain
    {
      fptr > 0 ==> IsCluster(fs.g, chain, (fptr - 1) / 512, currClust)
    }

    /** Inside a sector, the buffer holds it. */
    ghost predicate AtSector()
      reads `fptr, `dsect, `chain
    {
      fptr % 512 != 0 ==> dsect == SectOf(fs.g, chain, fptr / 512)
    }

    ghost predicate Valid()
      reads `dirty, `dsect, `stray, `orgClust, `chain, `others, `fptr, `currClust, `fsize, fs, fs.win, buf
    {
      && Core()
      && fs.g.csize > 0
      && fptr <= fsize < 0x1_0000_0000
      && Room(fs.g, chain, fsize)
      && AtCluster()
      && AtSector()
    }

    ghost function Bytes(n: nat): (r: seq<byte>)
      reads `dirty, `dsect, `orgClust, `chain, `others, fs, fs.win, buf
      requires Chained()
      ensures |r| == n
    {
      FileBytes(fs.g, fs.Logical(), chain, dirty, dsect, buf[..], n)
    }

    lemma CoreFacts()
      requires Core()
      ensures buf.Length == 512 && buf != fs.win && fs.Valid()
      ensures fs.g.DataOk(|fs.disk| / 512) && fs.g.Ok(|fs.disk| / 512) && |fs.Logical()| == |fs.disk|
      ensures Proper(fs.g, chain) && NoOnes(fs.Fat()) && fs.g.Marked()
      ensures chain == [] <==> orgClust == 0
      ensures chain != [] ==> chain[0] == orgClust && IsChain(fs.Fat(), chain)
    {
      OwnsChain(fs.g, fs.Fat(), chain, others, orgClust);
      BufferedIs(fs.g, fs.Logical(), chain, dirty, dsect, buf[..], fs.winsect);
      fs.OutsideIs();
    }

    lemma DirtyInFile()
      requires Core()
      ensures dirty ==> HasSect(fs.g, chain, dsect)
    {
    }

    /** What the file holds. */
    ghost function Contents(): (r: seq<byte>)
      reads `dirty, `dsect, `orgClust, `chain, `others, `fsize, fs, fs.win, buf
      requires Chained()
      ensures |r| == fsize
    {
      Bytes(fsize)
    }

    /** create_chain behind the first k clusters of the file. The result is the next cluster, or 0 when the disk
        is full; what the file holds does not change. */
    method NextCluster(clst: nat, ghost k: nat, ghost n: nat) returns (r: nat)
      requires Core() && Room(fs.g, chain, n) && k <= |chain| && (k == 0 ==> chain == [])
      requires clst == if k == 0 then 0 else chain[k - 1]
      modifies this`chain, this`orgClust, fs, fs.win
      ensures Core() && Bytes(n) == old(Bytes(n))
      ensures SameRest(fs.g, old(fs.Logical()), fs.Logical())
      ensures r == 0 ==> chain == old(chain) && k == |chain| && NoneFree(fs.Fat()) && fs.Fat() == old(fs.Fat())
      ensures r != 0 ==> k < |chain| && r == chain[k]
      ensures fs.Steady()
      ensures Grew(old(fs.Fat()), old(chain), fs.Fat(), chain) && old(chain) <= chain
    {
      hide Owns, Buffered, Volume.Valid, Volume.Logical, Volume.FatBytes, Volume.Fat, Volume.Outside, Rest, Created,
        FileBytes, Grew, NoneFree, InFile, Zeros, Room, Proper, IsChain, NoOnes, SameRest, HasSect, Geometry.InFat,
        Volume.FreeExact, Volume.Counted;
      ghost var g, fat, disk, w := fs.g, fs.Fat(), fs.Logical(), fs.winsect;
      OwnsChain(g, fat, chain, others, orgClust);
      ghost var hint := fs.Hint();
      fs.FewEntries();
      fs.OutsideIs();
      r := fs.CreateChain(clst);
      fs.OutsideIs();
      RestIsSame(g, disk, fs.Logical());
      AfterCreate(g, fat, chain, others, orgClust, k, hint, r, fs.Fat(), fs.EndMark(), Cut(g.subType, r));
      if k == |chain| && r != 0 {
        chain := chain + [r];
      }
      if clst == 0 && r != 0 {
        orgClust := r;
      }
      InFileMore(g, old(chain), chain, stray, dsect);
      BufferedMore(g, disk, fs.Logical(), old(chain), chain, dirty, dsect, buf[..], w, fs.winsect);
      GrowSame(g, disk, fs.Logical(), old(chain), chain, dirty, dsect, buf[..], n);
    }

    /** Writes the dirty buffer back. */
    method Flush(ghost n: nat)
      requires Core() && dirty && Room(fs.g, chain, n)
      modifies this`dirty, fs`disk
      ensures Core() && !dirty && Bytes(n) == old(Bytes(n)) && fs.Fat() == old(fs.Fat())
      ensures SameElsewhere(fs.g, chain, old(fs.Logical()), fs.Logical())
    {
      hide Owns, Volume.Valid, Volume.Logical, Volume.Fat, FileBytes, SectOf, Proper;
      ghost var g, disk := fs.g, fs.Logical();
      OwnsChain(g, fs.Fat(), chain, others, orgClust);
      fs.OutsideIs();
      SectsInData(g, |disk| / 512, chain);
      FlushSame(g, disk, chain, dsect, buf[..], n);
      SpliceElsewhere(g, disk, chain, dsect, buf[..]);
      fs.DiskWrite(dsect, buf[..]);
      dirty := false;
    }

    /** Refills the buffered sector when it was written past the buffer. */
    method Refill(sect: nat, w: seq<byte>)
      requires buf.Length == 512 && |w| % 512 == 0 && !dirty
      modifies this`dirty, buf
      ensures !dirty && buf[..] == Refilled(dsect, old(buf[..]), sect, w)
    {
      if sect <= dsect < sect + |w| / 512 {
        forall i | 0 <= i < 512 {
          buf[i] := w[512 * (dsect - sect) + i];
        }
        dirty := false;
      }
    }

    /** Writes whole sectors of one cluster straight to the disk; a buffered sector among them is refilled. */
    method WriteSectors(sect: nat, w: seq<byte>, ghost q: nat, ghost n: nat)
      requires Core() && !dirty && Room(fs.g, chain, n) && 512 * q <= n
      requires |w| % 512 == 0 && InRun(fs.g, chain, q, |w| / 512) && sect == SectOf(fs.g, chain, q)
      modifies this`dirty, fs`disk, buf
      ensures Core() && !dirty && fs.Fat() == old(fs.Fat())
      ensures Bytes(if n < 512 * q + |w| then 512 * q + |w| else n) == Patch(old(Bytes(n)), 512 * q, w)
      ensures SameElsewhere(fs.g, chain, old(fs.Logical()), fs.Logical())
    {
      hide Owns, Buffered, Volume.Valid, Volume.Logical, Volume.Fat, FileBytes, SectOf, Proper, HasSect, Refilled,
        Patch, Room, SameElsewhere;
      ghost var g, disk, was := fs.g, fs.Logical(), buf[..];
      OwnsChain(g, fs.Fat(), chain, others, orgClust);
      BufferedIs(g, disk, chain, dirty, dsect, was, fs.winsect);
      fs.OutsideIs();
      var cc := |w| / 512;
      assert |w| == 512 * cc;
      RunHasSects(g, |disk| / 512, chain, q, cc);
      SpliceElsewhere(g, disk, chain, sect, w);
      BufferedDirect(g, disk, chain, dsect, was, fs.winsect, sect, w);
      fs.DiskWrite(sect, w);
      Refill(sect, w);
      DirectWrite(g, disk, chain, dsect, was, buf[..], n, q, w);
    }

    /** At a sector boundary, names the file's sector at fptr as the buffered one and reads it, unless it is there
        or nothing of it is in the file yet. */
    method NameSector(sect: nat)
      requires Core() && !dirty && fptr % 512 == 0
      requires InRun(fs.g, chain, fptr / 512, 1) && sect == SectOf(fs.g, chain, fptr / 512)
      modifies this`dsect, buf
      ensures dsect == sect < |fs.disk| / 512
      ensures fptr < fsize || sect == old(dsect) ==> buf[..] == Sector(fs.Logical(), sect)
    {
      hide Owns, Volume.Valid, Volume.Logical, Volume.Fat, SectOf, Proper, HasSect;
      OwnsChain(fs.g, fs.Fat(), chain, others, orgClust);
      fs.OutsideIs();
      RunHasSects(fs.g, |fs.disk| / 512, chain, fptr / 512, 1);
      if dsect != sect {
        if fptr < fsize {
          assert HasSect(fs.g, chain, sect);
          var d := fs.DiskRead(sect, 1);
          forall i | 0 <= i < 512 {
            buf[i] := d[i];
          }
          assert buf[..] == d;
        }
      }
      dsect := sect;
    }

    /** Copies w to offset r of the buffer. */
    method CopyIn(r: nat, w: seq<byte>)
      requires buf.Length == 512 && r + |w| <= 512
      modifies buf
      ensures buf[..] == Splice(old(buf[..]), r, w)
    {
      forall i | 0 <= i < |w| {
        buf[r + i] := w[i];
      }
      assert buf[..] == Splice(old(buf[..]), r, w);
    }

    /** Stores w at fptr in the buffer, after NameSector at a sector boundary. */
    method WriteBuffered(sect: nat, w: seq<byte>, ghost n: nat)
      requires Core() && Room(fs.g, chain, n) && n == (if fptr < fsize then fsize else fptr)
      requires InRun(fs.g, chain, fptr / 512, 1) && sect == SectOf(fs.g, chain, fptr / 512)
      requires fptr % 512 + |w| <= 512 && (if fptr % 512 == 0 then !dirty else dsect == sect)
      modifies this`dirty, this`dsect, buf
      ensures Core() && dirty && dsect == sect
      ensures Bytes(if n < fptr + |w| then fptr + |w| else n) == Patch(old(Bytes(n)), fptr, w)
    {
      hide Owns, Buffered, Volume.Valid, Volume.Logical, Volume.Fat, FileBytes, SectOf, Proper, HasSect, Patch, Room,
        InFile, Sector, Rest;
      ghost var g, disk, p, b0, s0 := fs.g, fs.Logical(), fptr, buf[..], dsect;
      OwnsChain(g, fs.Fat(), chain, others, orgClust);
      BufferedIs(g, disk, chain, dirty, dsect, b0, fs.winsect);
      fs.OutsideIs();
      InFileAt(g, |disk| / 512, chain, stray, p / 512);
      BufferedDirty(g, disk, chain, dirty, dsect, b0, fs.winsect, p / 512);
      if fptr % 512 == 0 {
        NameSector(sect);
      }
      ghost var b1 := buf[..];
      if !dirty {
        CleanBuffer(g, disk, chain, dirty, s0, b0, dsect, b1, n);
      }
      BufferCurrent(g, disk, chain, dirty, dsect, b1, n, p);
      BufferedWrite(g, disk, chain, dirty, dsect, b1, n, p, w);
      CopyIn(fptr % 512, w);
      dirty := true;
    }

    /** At a cluster boundary, the cluster of byte fptr, allocated if need be; 0 when the disk is full. */
    method ClusterAhead(ghost n: nat) returns (clst: nat)
      requires Core() && AtCluster() && fptr % 512 == 0 && Csect(fs.g, fptr / 512) == 0 && Room(fs.g, chain, n)
      modifies this`chain, this`orgClust, fs, fs.win
      ensures Core() && Bytes(n) == old(Bytes(n)) && Room(fs.g, chain, n)
      ensures SameRest(fs.g, old(fs.Logical()), fs.Logical()) && Grew(old(fs.Fat()), old(chain), fs.Fat(), chain)
      ensures old(chain) <= chain
      ensures clst == 0 ==> Full(fs.g, fs.Fat(), chain, fptr) && chain == old(chain)
      ensures clst != 0 ==> IsCluster(fs.g, chain, fptr / 512, clst)
      ensures fs.Steady()
    {
      hide Csect, File.Core, File.Chained, File.Bytes, Volume.Valid, Volume.Logical, Volume.Fat, Grew, NoneFree, Room,
        Index, IsCluster, Proper, IsChain, Geometry.InFat, SameRest;
      CoreFacts();
      GrewNot(fs.Fat(), chain);
      RestSame(fs.g, fs.Logical());
      ghost var k := Index(fs.g, fptr / 512);
      if fptr == 0 {
        clst := orgClust;
        if clst == 0 {
          clst := NextCluster(0, 0, n);
        }
      } else {
        Entering(fs.g, chain, fptr, currClust);
        clst := NextCluster(currClust, k, n);
      }
      RoomMore(fs.g, old(chain), chain, n);
      if clst == 0 {
        NoRoomBehind(fs.g, chain, fptr);
      } else {
        AtIndex(fs.g, chain, fptr / 512, clst);
      }
    }

    /** At a sector boundary, makes the cluster of byte fptr the current one, allocating it if need be; fails when
        the disk is full. */
    method EnterCluster(ghost n: nat) returns (ok: bool)
      requires Core() && AtCluster() && fptr % 512 == 0 && Room(fs.g, chain, n)
      modifies this`currClust, this`chain, this`orgClust, fs, fs.win
      ensures Core() && Bytes(n) == old(Bytes(n)) && Room(fs.g, chain, n)
      ensures SameRest(fs.g, old(fs.Logical()), fs.Logical()) && Grew(old(fs.Fat()), old(chain), fs.Fat(), chain)
      ensures old(chain) <= chain
      ensures !ok ==> AtCluster() && Full(fs.g, fs.Fat(), chain, fptr) && chain == old(chain)
      ensures ok ==> IsCluster(fs.g, chain, fptr / 512, currClust)
      ensures fs.Steady()
    {
      hide Csect, File.Core, File.Chained, File.Bytes, Volume.Valid, Volume.Logical, Volume.Fat, Grew, Full, Room,
        IsCluster, Proper, IsChain, Geometry.InFat, SameRest;
      CoreFacts();
      GrewNot(fs.Fat(), chain);
      RestSame(fs.g, fs.Logical());
      if Csect(fs.g, fptr / 512) == 0 {
        var clst := ClusterAhead(n);
        if clst == 0 {
          return false;
        }
        currClust := clst;
      } else {
        Entering(fs.g, chain, fptr, currClust);
      }
      ok := true;
    }

    /** At a sector boundary, makes the sector of byte fptr ready for a transfer: enters its cluster and empties the
        buffer. `left` is the number of sectors from there to the end of the cluster. */
    method StartSector(ghost n: nat) returns (ok: bool, sect: nat, left: nat)
      requires Core() && AtCluster() && fptr % 512 == 0 && Room(fs.g, chain, n)
      modifies this`currClust, this`chain, this`orgClust, this`dirty, fs, fs.win
      ensures Core() && Bytes(n) == old(Bytes(n)) && Room(fs.g, chain, n) && Size(fs.g.csize)
      ensures Grew(old(fs.Fat()), old(chain), fs.Fat(), chain)
      ensures SameElsewhere(fs.g, chain, old(fs.Logical()), fs.Logical())
      ensures !ok ==> AtCluster() && Full(fs.g, fs.Fat(), chain, fptr) && chain == old(chain) && dsect == old(dsect)
      ensures ok ==> IsCluster(fs.g, chain, fptr / 512, currClust) && !dirty
      ensures ok ==> sect == SectOf(fs.g, chain, fptr / 512) && left > 0 && InRun(fs.g, chain, fptr / 512, left)
      ensures fs.Steady()
    {
      hide Csect, File.Core, File.Chained, File.Bytes, File.AtCluster, Volume.Valid, Volume.Logical, Volume.Fat, Grew,
        Full, Room, IsCluster, InRun, Proper, IsChain, SectOf, Clust2Sect, SameRest, SameElsewhere;
      sect, left := 0, 0;
      ghost var g, d0 := fs.g, fs.Logical();
      ok := EnterCluster(n);
      CoreFacts();
      ghost var d1 := fs.Logical();
      RestElsewhere(g, chain, d0, d1);
      if !ok {
        return;
      }
      if dirty {
        Flush(n);
        CoreFacts();
        ElsewhereTwice(g, chain, chain, d0, d1, fs.Logical());
      }
      SectFromCluster(g, chain, fptr / 512, currClust);
      var csect := Csect(fs.g, fptr / 512);
      sect := Clust2Sect(fs.g, currClust) + csect;
      left := fs.g.csize - csect;
    }

    /** From the old state, wcnt bytes of w were stored at fptr, and fptr moved behind them. */
    twostate predicate Stored(w: seq<byte>, wcnt: nat, n: nat)
      reads this, fs, fs.win, buf
      requires old(Core()) && old(fptr) <= n
    {
      && Core() && AtCluster() && AtSector()
      && 0 < wcnt <= |w|
      && fptr == old(fptr) + wcnt && (fptr % 512 != 0 ==> dirty)
      && Room(fs.g, chain, if n < fptr then fptr else n)
      && Bytes(if n < fptr then fptr else n) == Patch(old(Bytes(n)), old(fptr), w[..wcnt])
      && fs.Fat() == old(fs.Fat()) && fs.Steady()
      && SameElsewhere(fs.g, chain, old(fs.Logical()), fs.Logical())
    }

    /** Moves the file pointer over bytes of the current cluster: in the buffered sector, or whole sectors. */
    method Advance(cnt: nat, ghost n: nat)
      requires Size(fs.g.csize) && IsCluster(fs.g, chain, fptr / 512, currClust) && Room(fs.g, chain, n) && cnt > 0
      requires
        || (fptr % 512 + cnt <= 512 && dsect == SectOf(fs.g, chain, fptr / 512))
        || (fptr % 512 == 0 && cnt % 512 == 0 && InRun(fs.g, chain, fptr / 512, cnt / 512))
      modifies this`fptr
      ensures fptr == old(fptr) + cnt && AtCluster() && AtSector()
      ensures Room(fs.g, chain, if n < fptr then fptr else n)
    {
      hide Room, IsCluster, InRun, SectOf;
      Advanced(fs.g, chain, fptr, cnt, currClust, n);
      if fptr % 512 + cnt <= 512 && dsect == SectOf(fs.g, chain, fptr / 512) {
        SectorStays(fs.g, chain, fptr, cnt, dsect);
      } else {
        AdvanceWhole(fptr, cnt / 512);
      }
      fptr := fptr + cnt;
    }

    /** Transfers as many whole sectors of w as the cluster has left. */
    method TransferSectors(sect: nat, left: nat, w: seq<byte>, ghost n: nat) returns (wcnt: nat)
      requires Core() && !dirty && |w| >= 512 && Room(fs.g, chain, n) && fptr <= n && fptr % 512 == 0
      requires IsCluster(fs.g, chain, fptr / 512, currClust) && sect == SectOf(fs.g, chain, fptr / 512)
      requires left > 0 && InRun(fs.g, chain, fptr / 512, left)
      modifies this`fptr, this`dirty, buf, fs`disk
      ensures Stored(w, wcnt, n)
    {
      hide File.Core, File.Chained, File.Bytes, Volume.Valid, Volume.Logical, Volume.Fat, Room, IsCluster, InRun,
        SectOf, SameElsewhere, Patch, Geometry.InFat, Zeros, File.AtCluster, File.AtSector;
      CoreFacts();
      ghost var p := fptr;
      var cc := if |w| / 512 < left then |w| / 512 else left;
      wcnt := 512 * cc;
      AdvanceWhole(p, cc);
      InRunLess(fs.g, chain, fptr / 512, left, cc);
      WriteSectors(sect, w[..wcnt], fptr / 512, n);
      Advance(wcnt, n);
    }

    /** Transfers a part of w that fits in the sector of fptr. */
    method TransferBuffered(sect: nat, w: seq<byte>, ghost n: nat) returns (wcnt: nat)
      requires Core() && |w| > 0 && Room(fs.g, chain, n) && n == if fptr < fsize then fsize else fptr
      requires IsCluster(fs.g, chain, fptr / 512, currClust) && sect == SectOf(fs.g, chain, fptr / 512)
      requires if fptr % 512 == 0 then !dirty else dsect == sect
      modifies this`fptr, this`dirty, this`dsect, buf
      ensures Stored(w, wcnt, n)
    {
      hide File.Core, File.Chained, File.Bytes, Volume.Valid, Volume.Logical, Volume.Fat, Room, IsCluster, InRun,
        SectOf, SameElsewhere, Patch, InSameSector, Geometry.InFat, Zeros, File.AtCluster, File.AtSector;
      CoreFacts();
      ghost var p := fptr;
      wcnt := InSameSector(fptr, |w|);
      ClusterRun(fs.g, chain, fptr / 512, currClust);
      RestElsewhere(fs.g, chain, fs.Logical(), fs.Logical());
      WriteBuffered(sect, w[..wcnt], n);
      Advance(wcnt, n);
      assert |w[..wcnt]| == wcnt;
    }

    /** How far the file reaches during a write, before its size is updated. */
    ghost function Reach(): nat
      reads `fptr, `fsize
    {
      if fptr < fsize then fsize else fptr
    }

    /** What the file holds that far. */
    ghost function Extent(): (r: seq<byte>)
      reads `dirty, `dsect, `orgClust, `chain, `others, `fptr, `fsize, fs, fs.win, buf
      requires Chained()
      ensures |r| == Reach()
    {
      Bytes(Reach())
    }

    lemma ReachIs()
      requires Chained() && fptr <= fsize
      ensures Reach() == fsize && Extent() == Contents()
    {
      hide File.Chained, File.Bytes;
    }

    /** One round of the write loop: transfers a non-empty front of w at fptr; 0 bytes when the disk is full. */
    method WriteStep(w: seq<byte>) returns (wcnt: nat)
      requires Core() && AtCluster() && AtSector() && |w| > 0 && Room(fs.g, chain, Reach())
      modifies this`fptr, this`dirty, this`dsect, this`currClust, this`chain, this`orgClust, buf, fs, fs.win
      ensures Core() && AtCluster() && AtSector()
      ensures wcnt <= |w| && fptr == old(fptr) + wcnt && (wcnt == 0 ==> Full(fs.g, fs.Fat(), chain, fptr))
      ensures fptr % 512 != 0 ==> dirty
      ensures Room(fs.g, chain, Reach()) && Extent() == Patch(old(Extent()), old(fptr), w[..wcnt])
      ensures Grew(old(fs.Fat()), old(chain), fs.Fat(), chain)
      ensures SameElsewhere(fs.g, chain, old(fs.Logical()), fs.Logical())
      ensures fs.Steady()
    {
      hide File.Core, File.Chained, File.Bytes, Volume.Valid, Volume.Logical, Volume.Fat, Grew, Full, Room, IsCluster,
        InRun, SectOf, SameElsewhere, Patch;
      ghost var d0, n := fs.Logical(), Reach();
      var sect, left := dsect, 0;
      if fptr % 512 == 0 {
        var ok;
        ok, sect, left := StartSector(n);
        if !ok {
          wcnt := 0;
          PatchEmpty(Bytes(n), fptr);
          return;
        }
      } else {
        CoreFacts();
        GrewNot(fs.Fat(), chain);
        RestElsewhere(fs.g, chain, d0, d0);
        AdvanceInside(fptr, 1);
      }
      ghost var d1 := fs.Logical();
      label Ready:
      if fptr % 512 == 0 && |w| >= 512 {
        wcnt := TransferSectors(sect, left, w, n);
      } else {
        wcnt := TransferBuffered(sect, w, n);
      }
      assert Stored@Ready(w, wcnt, n);
      ElsewhereTwice(fs.g, chain, chain, d0, d1, fs.Logical());
    }

    /** From table f0, chain c0, disk d0 and contents `was`, with the pointer at p0, these bytes were written. */
    ghost predicate Wrote(f0: seq<nat>, c0: seq<nat>, d0: seq<byte>, was: seq<byte>, p0: nat, done: seq<byte>)
      reads this, fs, fs.win, buf
    {
      && Core() && AtCluster() && AtSector()
      && p0 <= |was| && fptr == p0 + |done| && Room(fs.g, chain, Reach()) && Extent() == Patch(was, p0, done)
      && Grew(f0, c0, fs.Fat(), chain) && SameElsewhere(fs.g, chain, d0, fs.Logical())
    }

    /** A round of the write loop behind others. */
    method WriteMore(data: seq<byte>, bw: nat, ghost f0: seq<nat>, ghost c0: seq<nat>, ghost d0: seq<byte>,
                     ghost was: seq<byte>, ghost p0: nat) returns (wcnt: nat)
      requires bw < |data| && Wrote(f0, c0, d0, was, p0, data[..bw])
      modifies this`fptr, this`dirty, this`dsect, this`currClust, this`chain, this`orgClust, buf, fs, fs.win
      ensures bw + wcnt <= |data| && Wrote(f0, c0, d0, was, p0, data[..bw + wcnt])
      ensures wcnt == 0 ==> Full(fs.g, fs.Fat(), chain, fptr)
      ensures fptr % 512 != 0 ==> dirty
      ensures fs.Steady()
    {
      hide File.Core, File.Chained, File.Bytes, File.AtCluster, File.AtSector, Volume.Valid, Volume.Logical,
        Volume.Fat, Grew, Full, SameElsewhere, Patch, Room, Volume.FreeExact, Volume.Counted, Geometry.InFat,
        File.Extent, File.Reach;
      ghost var f1, c1, d1 := fs.Fat(), chain, fs.Logical();
      CoreFacts();
      wcnt := WriteStep(data[bw..]);
      PatchMore(was, p0, data, bw, wcnt);
      CoreFacts();
      GrewOn(fs.g, f0, c0, d0, f1, c1, d1, fs.Fat(), chain, fs.Logical());
    }

    /** The transfer loop of f_write. */
    method WriteLoop(data: seq<byte>) returns (bw: nat)
      requires Valid()
      modifies this`fptr, this`dirty, this`dsect, this`currClust, this`chain, this`orgClust, buf, fs, fs.win
      ensures Core() && AtCluster() && AtSector()
      ensures bw <= |data| && fptr == old(fptr) + bw && Room(fs.g, chain, Reach())
      ensures Extent() == Patch(old(Contents()), old(fptr), data[..bw])
      ensures bw == |data| || Full(fs.g, fs.Fat(), chain, fptr)
      ensures bw > 0 && fptr % 512 != 0 ==> dirty
      ensures Grew(old(fs.Fat()), old(chain), fs.Fat(), chain)
      ensures SameElsewhere(fs.g, chain, old(fs.Logical()), fs.Logical())
      ensures fs.Steady()
    {
      hide File.Core, File.Chained, File.Bytes, File.Contents, File.AtCluster, File.AtSector, Volume.Valid,
        Volume.Logical, Volume.Fat, Grew, Full, SameElsewhere, Patch, Room, Volume.FreeExact, Volume.Counted,
        Geometry.InFat, File.Extent, File.Reach;
      ghost var f0, c0, d0, was, p0 := fs.Fat(), chain, fs.Logical(), Contents(), fptr;
      WroteNothing();
      bw := 0;
      var btw: nat := |data|;
      while btw > 0
        invariant bw + btw == |data| && (bw > 0 && fptr % 512 != 0 ==> dirty)
        invariant Wrote(f0, c0, d0, was, p0, data[..bw]) && fs.Valid() && fs.Steady()
      {
        var wcnt := WriteMore(data, bw, f0, c0, d0, was, p0);
        bw, btw := bw + wcnt, btw - wcnt;
        if wcnt == 0 {
          break;
        }
      }
    }

    lemma WroteNothing()
      requires Valid()
      ensures Wrote(fs.Fat(), chain, fs.Logical(), Contents(), fptr, [])
    {
      hide File.Core, File.Chained, File.Bytes, Volume.Valid, Volume.Logical, Volume.Fat, Grew, SameElsewhere, Room,
        Patch, IsCluster, SectOf;
      ReachIs();
      CoreFacts();
      GrewNot(fs.Fat(), chain);
      RestElsewhere(fs.g, chain, fs.Logical(), fs.Logical());
      PatchEmpty(Contents(), fptr);
    }

    /** f_write: stores the data at the file pointer. Fewer bytes are written only when the disk is full, or none
        when the file could reach 4 GB. */
    method Write(data: seq<byte>) returns (res: FResult, bw: nat)
      requires Valid()
      modifies this, buf, fs, fs.win
      ensures Valid() && others == old(others) && error == old(error) && stray == old(stray)
      ensures res == if error then FrIntErr else if !canWrite then FrDenied else FrOk
      ensures res != FrOk || old(fsize) + |data| >= 0x1_0000_0000 ==> bw == 0
      ensures res == FrOk && old(fsize) + |data| < 0x1_0000_0000 ==> bw == |data| || Full(fs.g, fs.Fat(), chain, fptr)
      ensures bw <= |data| && fptr == old(fptr) + bw && Contents() == Patch(old(Contents()), old(fptr), data[..bw])
      ensures if res == FrOk then written else chain == old(chain) && written == old(written) && dirty == old(dirty)
      ensures bw > 0 && fptr % 512 != 0 ==> dirty
      ensures Grew(old(fs.Fat()), old(chain), fs.Fat(), chain)
      ensures SameElsewhere(fs.g, chain, old(fs.Logical()), fs.Logical())
      ensures fs.Steady()
    {
      hide File.Core, File.Chained, File.Bytes, File.AtCluster, File.AtSector, Volume.Valid, Volume.Logical,
        Volume.Fat, Grew, Full, SameElsewhere, Patch, Room, Zeros, Volume.FreeExact, Volume.Counted;
      GrewNot(fs.Fat(), chain);
      CoreFacts();
      RestElsewhere(fs.g, chain, fs.Logical(), fs.Logical());
      PatchEmpty(Contents(), fptr);
      if error {
        return FrIntErr, 0;
      }
      if !canWrite {
        return FrDenied, 0;
      }
      bw := WriteLoop(if fsize + |data| < 0x1_0000_0000 then data else []);
      if fptr > fsize {
        fsize := fptr;
      }
      written := true;
      res := FrOk;
    }

    /** get_fat of the k-th cluster of the file: the next cluster, or an end mark. */
    method LinkOf(clst: nat, ghost k: nat, ghost n: nat) returns (r: nat)
      requires Core() && k < |chain| && clst == chain[k]
      modifies fs`disk, fs`winsect, fs`wflag, fs.win
      ensures Core() && Bytes(n) == old(Bytes(n)) && fs.Fat() == old(fs.Fat()) && fs.Logical() == old(fs.Logical())
      ensures r > 1 && (k + 1 < |chain| ==> r == chain[k + 1]) && (k + 1 == |chain| <==> r >= fs.g.nFatent)
      ensures fs.Steady()
    {
      hide Owns, Buffered, Volume.Valid, Volume.Logical, Volume.FatBytes, Volume.Fat, Volume.Outside, FileBytes,
        SectOf, Proper, IsChain;
      CoreFacts();
      Link(fs.Fat(), chain, k);
      ghost var disk, w := fs.Logical(), fs.winsect;
      r := fs.GetFat(clst);
      RestSame(fs.g, disk);
      BufferedMore(fs.g, disk, disk, chain, chain, dirty, dsect, buf[..], w, fs.winsect);
    }

    /** At a sector boundary inside the file, makes the cluster of byte fptr the current one. */
    method FollowCluster() returns (ok: bool)
      requires Core() && AtCluster() && fptr % 512 == 0 && fptr < fsize && Room(fs.g, chain, fsize)
      modifies this`currClust, fs`disk, fs`winsect, fs`wflag, fs.win
      ensures Core() && Contents() == old(Contents()) && fs.Fat() == old(fs.Fat()) && fs.Logical() == old(fs.Logical())
      ensures ok && IsCluster(fs.g, chain, fptr / 512, currClust)
      ensures fs.Steady()
    {
      hide Csect, Owns, Buffered, Volume.Valid, Volume.Logical, Volume.FatBytes, Volume.Fat, Volume.Outside, FileBytes,
        SectOf, Proper, IsChain, Index, IsCluster, Room, InFile, Volume.FreeExact, Volume.Counted, File.Bytes,
        File.Core;
      CoreFacts();
      var q := fptr / 512;
      RoomIndex(fs.g, chain, fsize, fptr);
      if fptr > 0 {
        Entering(fs.g, chain, fptr, currClust);
      }
      if Csect(fs.g, q) == 0 {
        var clst;
        if fptr == 0 {
          clst := orgClust;
        } else {
          clst := LinkOf(currClust, Index(fs.g, q) - 1, fsize);
        }
        if clst <= 1 {
          return false;
        }
        currClust := clst;
        AtIndex(fs.g, chain, q, clst);
      }
      ok := true;
    }

    /** From the old state, `chunk` was read at fptr, and fptr moved behind it. */
    twostate predicate Fetched(chunk: seq<byte>, btr: nat)
      reads this, fs, fs.win, buf
      requires old(Core()) && old(fptr) <= old(fsize)
    {
      && Core() && AtCluster() && AtSector()
      && 0 < |chunk| <= btr
      && fptr == old(fptr) + |chunk| <= fsize == old(fsize)
      && chunk == old(Contents())[old(fptr)..fptr]
      && Contents() == old(Contents())
      && fs.Fat() == old(fs.Fat()) && fs.Steady()
      && SameElsewhere(fs.g, chain, old(fs.Logical()), fs.Logical())
    }

    /** Reads sectors of one cluster straight from the disk, except for the one held dirty in the buffer. */
    method ReadRunOf(sect: nat, cc: nat, ghost q: nat) returns (chunk: seq<byte>)
      requires Core() && InRun(fs.g, chain, q, cc) && sect == SectOf(fs.g, chain, q) && 512 * (q + cc) <= fsize
      ensures chunk == Contents()[512 * q..512 * (q + cc)]
    {
      hide Owns, Buffered, Volume.Valid, Volume.Logical, Volume.Fat, InRun, SectOf, FileBytes, Proper, IsChain,
        HasSect;
      CoreFacts();
      WindowAway(fs.g, fs.Logical(), chain, dirty, dsect, buf[..], fs.winsect, q, cc);
      ReadRun(fs.g, fs.Logical(), chain, dirty, dsect, buf[..], fsize, q, cc);
      chunk := fs.DiskRead(sect, cc);
      if dirty && sect <= dsect < sect + cc {
        chunk := Splice(chunk, 512 * (dsect - sect), buf[..]);
      }
    }

    /** Fetches as many whole sectors as asked for and left in the cluster. */
    method FetchSectors(sect: nat, left: nat, btr: nat) returns (chunk: seq<byte>)
      requires Core() && Room(fs.g, chain, fsize) && fptr % 512 == 0 && 512 <= btr <= fsize - fptr
      requires IsCluster(fs.g, chain, fptr / 512, currClust) && sect == SectOf(fs.g, chain, fptr / 512)
      requires left > 0 && InRun(fs.g, chain, fptr / 512, left)
      modifies this`fptr
      ensures Fetched(chunk, btr)
    {
      hide File.Core, File.Chained, File.Bytes, Volume.Valid, Volume.Logical, Volume.Fat, Room, IsCluster, InRun,
        SectOf, SameElsewhere, Geometry.InFat, Zeros, File.AtCluster, File.AtSector;
      CoreFacts();
      ghost var p := fptr;
      var cc := if btr / 512 < left then btr / 512 else left;
      AdvanceWhole(p, cc);
      InRunLess(fs.g, chain, p / 512, left, cc);
      RestElsewhere(fs.g, chain, fs.Logical(), fs.Logical());
      chunk := ReadRunOf(sect, cc, p / 512);
      Advance(512 * cc, fsize);
    }

    /** Brings the sector of fptr into the buffer, writing a dirty buffer back first. */
    method LoadSector(sect: nat)
      requires Core() && Room(fs.g, chain, fsize)
      requires IsCluster(fs.g, chain, fptr / 512, currClust) && sect == SectOf(fs.g, chain, fptr / 512)
      modifies this`dirty, this`dsect, fs`disk, buf
      ensures Core() && !dirty && dsect == sect && Contents() == old(Contents()) && fs.Fat() == old(fs.Fat())
      ensures SameElsewhere(fs.g, chain, old(fs.Logical()), fs.Logical())
    {
      hide File.Core, File.Chained, File.Bytes, Volume.Valid, Volume.Logical, Volume.Fat, Room, IsCluster, SectOf,
        SameElsewhere, Geometry.InFat, Zeros;
      CoreFacts();
      RestElsewhere(fs.g, chain, fs.Logical(), fs.Logical());
      if dirty {
        Flush(fsize);
      }
      FillBuffer(sect);
    }

    /** Brings the sector of fptr into the buffer at a sector boundary, and fetches what is asked for of it. */
    method FetchBuffered(sect: nat, btr: nat) returns (chunk: seq<byte>)
      requires Core() && Room(fs.g, chain, fsize) && 0 < btr <= fsize - fptr
      requires IsCluster(fs.g, chain, fptr / 512, currClust) && sect == SectOf(fs.g, chain, fptr / 512)
      requires fptr % 512 != 0 ==> dsect == sect
      modifies this`fptr, this`dirty, this`dsect, fs`disk, buf
      ensures Fetched(chunk, btr)
      ensures dirty ==> old(dirty)
    {
      hide File.Core, File.Chained, File.Bytes, Volume.Valid, Volume.Logical, Volume.Fat, Room, IsCluster, InRun,
        SectOf, SameElsewhere, InSameSector, Geometry.InFat, Zeros, File.AtCluster, File.AtSector;
      CoreFacts();
      ghost var p := fptr;
      RestElsewhere(fs.g, chain, fs.Logical(), fs.Logical());
      if fptr % 512 == 0 {
        LoadSector(sect);
      }
      var rcnt := InSameSector(fptr, btr);
      BufferHolds(rcnt);
      chunk := buf[fptr % 512..fptr % 512 + rcnt];
      Advance(rcnt, fsize);
    }

    /** Makes the file's sector at fptr the buffered one. */
    method FillBuffer(sect: nat)
      requires Core() && !dirty && IsCluster(fs.g, chain, fptr / 512, currClust)
      requires sect == SectOf(fs.g, chain, fptr / 512)
      modifies this`dsect, buf
      ensures Core() && dsect == sect && Contents() == old(Contents())
    {
      hide Owns, Volume.Valid, Volume.Logical, Volume.Fat, IsCluster, InRun, SectOf, FileBytes, Proper, IsChain,
        HasSect, InFile;
      CoreFacts();
      ClusterRun(fs.g, chain, fptr / 512, currClust);
      InFileAt(fs.g, |fs.disk| / 512, chain, stray, fptr / 512);
      WindowAway(fs.g, fs.Logical(), chain, dirty, dsect, buf[..], fs.winsect, fptr / 512, 1);
      ghost var b0, s0 := buf[..], dsect;
      if dsect != sect {
        var d := fs.DiskRead(sect, 1);
        forall i | 0 <= i < 512 {
          buf[i] := d[i];
        }
        assert buf[..] == Sector(fs.Logical(), sect);
      }
      dsect := sect;
      CleanBuffer(fs.g, fs.Logical(), chain, dirty, s0, b0, dsect, buf[..], fsize);
    }

    /** One round of the read loop. */
    method ReadStep(btr: nat) returns (chunk: seq<byte>)
      requires Core() && AtCluster() && AtSector() && Room(fs.g, chain, fsize) && 0 < btr <= fsize - fptr
      modifies this`fptr, this`dirty, this`dsect, this`currClust, buf, fs`disk, fs`winsect, fs`wflag, fs.win
      ensures Fetched(chunk, btr)
      ensures dirty ==> old(dirty)
    {
      hide Csect, File.Core, File.Chained, File.Bytes, Volume.Valid, Volume.Logical, Volume.Fat, Room, IsCluster,
        InRun, SectOf, SameElsewhere;
      CoreFacts();
      var sect, left := dsect, 0;
      if fptr % 512 == 0 {
        var ok := FollowCluster();
        CoreFacts();
        var csect := Csect(fs.g, fptr / 512);
        sect := Clust2Sect(fs.g, currClust) + csect;
        left := fs.g.csize - csect;
        SectFromCluster(fs.g, chain, fptr / 512, currClust);
      } else {
        AdvanceInside(fptr, 1);
      }
      label Ready:
      if fptr % 512 == 0 && btr >= 512 {
        chunk := FetchSectors(sect, left, btr);
      } else {
        chunk := FetchBuffered(sect, btr);
      }
      assert Fetched@Ready(chunk, btr);
    }

    /** The transfer loop of f_read. */
    method ReadLoop(btr: nat) returns (data: seq<byte>)
      requires Valid() && fptr + btr <= fsize
      modifies this`fptr, this`dirty, this`dsect, this`currClust, buf, fs`disk, fs`winsect, fs`wflag, fs.win
      ensures Core() && AtCluster() && AtSector() && Contents() == old(Contents()) && fs.Fat() == old(fs.Fat())
      ensures fptr == old(fptr) + btr && data == old(Contents())[old(fptr)..fptr]
      ensures SameElsewhere(fs.g, chain, old(fs.Logical()), fs.Logical())
      ensures fs.Steady()
      ensures dirty ==> old(dirty)
    {
      hide File.Core, File.Chained, File.Bytes, File.AtCluster, File.AtSector, File.Contents, Volume.Valid,
        Volume.Logical, Volume.Fat, Volume.FreeExact, Volume.Counted, SameElsewhere, Room;
      CoreFacts();
      RestElsewhere(fs.g, chain, fs.Logical(), fs.Logical());
      ghost var d0, c0, p0 := fs.Logical(), Contents(), fptr;
      data := [];
      var left := btr;
      while left > 0
        invariant dirty ==> old(dirty)
        invariant Core() && AtCluster() && AtSector() && Contents() == c0 && fs.Fat() == old(fs.Fat())
        invariant fs.Steady()
        invariant 0 <= left && fptr + left == p0 + btr
        invariant p0 <= fptr && data == c0[p0..fptr]
        invariant SameElsewhere(fs.g, chain, d0, fs.Logical())
      {
        ghost var p1, d1 := fptr, fs.Logical();
        var chunk := ReadStep(left);
        SlicesJoin(c0, p0, p1, fptr, data, chunk);
        ElsewhereTwice(fs.g, chain, chain, d0, d1, fs.Logical());
        data := data + chunk;
        left := left - |chunk|;
      }
    }

    /** f_read: the bytes at the file pointer, as many as asked for or left in the file. */
    method Read(btr: nat) returns (res: FResult, data: seq<byte>)
      requires Valid()
      modifies this`fptr, this`dirty, this`dsect, this`currClust, buf, fs`disk, fs`winsect, fs`wflag, fs.win
      ensures Valid() && Contents() == old(Contents()) && fs.Fat() == old(fs.Fat())
      ensures res == if error then FrIntErr else if !canRead then FrDenied else FrOk
      ensures res != FrOk ==> data == []
      ensures res == FrOk ==> |data| == if btr < fsize - old(fptr) then btr else fsize - old(fptr)
      ensures fptr == old(fptr) + |data| && data == old(Contents())[old(fptr)..fptr]
      ensures SameElsewhere(fs.g, chain, old(fs.Logical()), fs.Logical())
      ensures fs.Steady()
      ensures dirty ==> old(dirty)
    {
      hide File.Core, File.Chained, File.Bytes, File.AtCluster, File.AtSector, File.Contents, Volume.Valid,
        Volume.Logical, Volume.Fat, Volume.FreeExact, Volume.Counted, SameElsewhere, Room;
      CoreFacts();
      RestElsewhere(fs.g, chain, fs.Logical(), fs.Logical());
      if error {
        return FrIntErr, [];
      }
      if !canRead {
        return FrDenied, [];
      }
      data := ReadLoop(if btr > fsize - fptr then fsize - fptr else btr);
      res := FrOk;
    }

    /** The cluster behind the one that starts at fptr; in write mode allocated if need be, 0 when the disk is full. */
    method ClusterBehind(ghost ahead: nat) returns (clst: nat)
      requires Core() && Room(fs.g, chain, fsize) && StartOf(fs.g, chain, fptr, currClust)
      requires fptr + 512 * fs.g.csize < ahead && (canWrite || ahead <= fsize)
      modifies this`chain, this`orgClust, fs, fs.win
      ensures Core() && Room(fs.g, chain, fsize) && Contents() == old(Contents())
      ensures StartOf(fs.g, chain, fptr, currClust)
      ensures clst != 0 ==> StartOf(fs.g, chain, fptr + 512 * fs.g.csize, clst)
      ensures clst == 0 ==> canWrite && NoneFree(fs.Fat()) && !Room(fs.g, chain, fptr + 512 * fs.g.csize + 1)
      ensures Moved(fs.g, old(fs.Fat()), old(chain), old(fs.Logical()), fs.Fat(), chain, fs.Logical())
      ensures fs.Steady()
    {
      hide File.Core, File.Chained, File.Bytes, Volume.Valid, Volume.Logical, Volume.Fat, Grew, NoneFree, Room, Index,
        StartOf, SameRest, Proper, IsChain, NoOnes, Volume.FreeExact, Volume.Counted, Geometry.InFat;
      CoreFacts();
      GrewNot(fs.Fat(), chain);
      RestSame(fs.g, fs.Logical());
      StartIs(fs.g, chain, fptr, currClust);
      NextStart(fs.g, chain, fptr, currClust);
      ghost var k := Index(fs.g, fptr / 512);
      if canWrite {
        clst := NextCluster(currClust, k + 1, fsize);
        RoomMore(fs.g, old(chain), chain, fsize);
        StartPrefix(fs.g, old(chain), chain, fptr, currClust);
        NextStart(fs.g, chain, fptr, currClust);
      } else {
        RoomIndex(fs.g, chain, fsize, fptr + 512 * fs.g.csize);
        clst := LinkOf(currClust, k, fsize);
      }
    }

    /** One round of the cluster following loop of f_lseek: from the start of a cluster to the start of the next. In
        write mode the chain is stretched for that, if the disk has a free cluster. */
    method FollowOn(ghost ahead: nat) returns (ok: bool)
      requires Core() && Room(fs.g, chain, fsize) && StartOf(fs.g, chain, fptr, currClust)
      requires fptr + 512 * fs.g.csize < ahead && (canWrite || ahead <= fsize)
      modifies this`fptr, this`currClust, this`chain, this`orgClust, fs, fs.win
      ensures Core() && Room(fs.g, chain, fsize) && Contents() == old(Contents())
      ensures StartOf(fs.g, chain, fptr, currClust)
      ensures fptr == old(fptr) + if ok then 512 * fs.g.csize else 0
      ensures !ok ==> canWrite && NoneFree(fs.Fat()) && !Room(fs.g, chain, fptr + 512 * fs.g.csize + 1)
      ensures Moved(fs.g, old(fs.Fat()), old(chain), old(fs.Logical()), fs.Fat(), chain, fs.Logical())
      ensures fs.Steady()
    {
      hide File.Core, File.Chained, File.Bytes, File.Contents, Volume.Valid, Volume.Logical, Volume.Fat, Moved,
        NoneFree, Room, StartOf, Volume.FreeExact, Volume.Counted, Geometry.InFat;
      var clst := ClusterBehind(ahead);
      ok := clst != 0;
      if ok {
        currClust := clst;
        fptr := fptr + 512 * fs.g.csize;
      }
    }

    /** The cluster following loop of f_lseek: the offset behind fptr that is left, at most one cluster. */
    method FollowTo(ofs: nat) returns (left: nat)
      requires Core() && Room(fs.g, chain, fsize) && StartOf(fs.g, chain, fptr, currClust) && ofs > 0
      requires canWrite || fptr + ofs <= fsize
      modifies this`fptr, this`currClust, this`chain, this`orgClust, fs, fs.win
      ensures Core() && Room(fs.g, chain, fsize) && Contents() == old(Contents())
      ensures StartOf(fs.g, chain, fptr, currClust) && 0 < left <= 512 * fs.g.csize
      ensures
        || fptr + left == old(fptr) + ofs
        || (fptr + left < old(fptr) + ofs && NoneFree(fs.Fat()) && !Room(fs.g, chain, fptr + left + 1) && canWrite)
      ensures Moved(fs.g, old(fs.Fat()), old(chain), old(fs.Logical()), fs.Fat(), chain, fs.Logical())
      ensures fs.Steady()
    {
      hide File.Core, File.Chained, File.Bytes, Volume.Valid, Volume.Logical, Volume.Fat, Moved, NoneFree, Room, Index,
        StartOf, Proper, IsChain;
      CoreFacts();
      MovedNot(fs.g, fs.Fat(), chain, fs.Logical());
      var bcs := 512 * fs.g.csize;
      ghost var f0, ch0, d0, c0, target := fs.Fat(), chain, fs.Logical(), Contents(), fptr + ofs;
      left := ofs;
      while left > bcs
        invariant Core() && Room(fs.g, chain, fsize) && Contents() == c0 && StartOf(fs.g, chain, fptr, currClust)
        invariant fs.Steady()
        invariant left > 0 && fptr + left == target
        invariant Moved(fs.g, f0, ch0, d0, fs.Fat(), chain, fs.Logical())
      {
        ghost var f1, ch1, d1 := fs.Fat(), chain, fs.Logical();
        var ok := FollowOn(target);
        MovedTwice(fs.g, f0, ch0, d0, f1, ch1, d1, fs.Fat(), chain, fs.Logical());
        if !ok {
          left := bcs;
          break;
        }
        left := left - bcs;
      }
    }

    /** Goes to the first cluster of the file, which is allocated if there is none; fails when the disk is full. */
    method FollowFirst() returns (ok: bool)
      requires Core() && Room(fs.g, chain, fsize) && (canWrite || fsize > 0)
      modifies this`fptr, this`currClust, this`chain, this`orgClust, fs, fs.win
      ensures Core() && Room(fs.g, chain, fsize) && Contents() == old(Contents()) && fptr == 0
      ensures ok ==> StartOf(fs.g, chain, 0, currClust)
      ensures !ok ==> NoneFree(fs.Fat()) && chain == [] && canWrite
      ensures Moved(fs.g, old(fs.Fat()), old(chain), old(fs.Logical()), fs.Fat(), chain, fs.Logical())
      ensures fs.Steady()
    {
      hide File.Core, File.Chained, File.Bytes, Volume.Valid, Volume.Logical, Volume.Fat, Grew, NoneFree, Room,
        StartOf, SameRest, Proper, IsChain, IsCluster;
      CoreFacts();
      GrewNot(fs.Fat(), chain);
      RestSame(fs.g, fs.Logical());
      NoRoom(fs.g, fsize);
      fptr := 0;
      var clst := orgClust;
      if clst == 0 {
        clst := NextCluster(0, 0, fsize);
        RoomMore(fs.g, old(chain), chain, fsize);
      }
      currClust := clst;
      if clst == 0 {
        return false;
      }
      CoreFacts();
      FirstStart(fs.g, chain);
      ok := true;
    }

    /** Where the walk to an offset begins: at the start of the current cluster if the offset is not before it, else
        at the start of the file. Fails when the disk is full. */
    method FollowFrom(ofs: nat) returns (ok: bool)
      requires Core() && AtCluster() && Room(fs.g, chain, fsize) && ofs > 0 && (canWrite || ofs <= fsize)
      modifies this`fptr, this`currClust, this`chain, this`orgClust, fs, fs.win
      ensures Core() && Room(fs.g, chain, fsize) && Contents() == old(Contents())
      ensures ok ==> StartOf(fs.g, chain, fptr, currClust) && fptr < ofs
      ensures !ok ==> fptr == 0 && NoneFree(fs.Fat()) && chain == [] && canWrite
      ensures Moved(fs.g, old(fs.Fat()), old(chain), old(fs.Logical()), fs.Fat(), chain, fs.Logical())
      ensures fs.Steady()
    {
      hide File.Core, File.Chained, File.Bytes, Volume.Valid, Volume.Logical, Volume.Fat, Moved, NoneFree, Room,
        StartOf, Proper, IsChain, IsCluster;
      CoreFacts();
      MovedNot(fs.g, fs.Fat(), chain, fs.Logical());
      var bcs, ifptr := 512 * fs.g.csize, fptr;
      ok := true;
      if ifptr > 0 {
        SameClusterLater(fs.g.csize, ifptr - 1, ofs - 1);
      }
      if ifptr > 0 && (ofs - 1) / bcs >= (ifptr - 1) / bcs {
        AtClusterStart(fs.g, chain, ifptr - 1, currClust);
        fptr := ClusterStart(fs.g, ifptr - 1);
      } else {
        ok := FollowFirst();
      }
    }

    /** Moves the file pointer; nsect is the sector it points into when that is inside a sector. */
    method Land(offset: nat) returns (nsect: nat)
      requires Core() && AtCluster() && Room(fs.g, chain, fsize) && (canWrite || offset <= fsize)
      modifies this`fptr, this`currClust, this`chain, this`orgClust, fs, fs.win
      ensures Core() && AtCluster() && Room(fs.g, chain, fsize) && Room(fs.g, chain, fptr)
      ensures Contents() == old(Contents())
      ensures fptr % 512 != 0 ==>
        IsCluster(fs.g, chain, fptr / 512, currClust) && nsect == SectOf(fs.g, chain, fptr / 512)
      ensures fptr == offset || (fptr < offset && NoneFree(fs.Fat()) && !Room(fs.g, chain, fptr + 1) && canWrite)
      ensures Moved(fs.g, old(fs.Fat()), old(chain), old(fs.Logical()), fs.Fat(), chain, fs.Logical())
      ensures fs.Steady()
    {
      hide File.Core, File.Chained, File.Bytes, Volume.Valid, Volume.Logical, Volume.Fat, Moved, NoneFree, Room,
        StartOf, Proper, IsChain, IsCluster, SectOf, Clust2Sect, Volume.FreeExact, Volume.Counted, Geometry.InFat;
      CoreFacts();
      MovedNot(fs.g, fs.Fat(), chain, fs.Logical());
      NoRoom(fs.g, 0);
      NoRoom(fs.g, 1);
      ghost var f0, ch0, d0 := fs.Fat(), chain, fs.Logical();
      nsect := 0;
      if offset == 0 {
        fptr := 0;
        RoomZero(fs.g, chain);
        return;
      }
      var ok := FollowFrom(offset);
      if !ok {
        return;
      }
      ghost var f1, ch1, d1 := fs.Fat(), chain, fs.Logical();
      var ofs := FollowTo(offset - fptr);
      MovedTwice(fs.g, f0, ch0, d0, f1, ch1, d1, fs.Fat(), chain, fs.Logical());
      Landing(fs.g, chain, fptr, currClust, ofs);
      if ofs % 512 != 0 {
        nsect := Clust2Sect(fs.g, currClust) + ofs / 512;
      }
      fptr := fptr + ofs;
    }

    /** f_truncate at offset 0: frees all clusters. */
    method DropAll()
      requires Core() && chain != []
      modifies this`chain, this`orgClust, this`stray, fs, fs.win
      ensures stray ==> old(stray) || (dsect != 0 && !HasSect(fs.g, chain, dsect))
      ensures Chained() && (Core() <==> !dirty) && chain == []
      ensures CutTo(old(fs.Fat()), old(chain), [], fs.Fat(), fs.EndMark())
      ensures SameRest(fs.g, old(fs.Logical()), fs.Logical())
      ensures fs.Steady()
    {
      hide Owns, Buffered, Volume.Valid, Volume.Logical, Volume.FatBytes, Volume.Fat, Volume.Outside, Rest, FileBytes,
        Proper, IsChain, Zeroed, Freed, HasSect, Room, SameRest, Geometry.InFat, Volume.FreeExact, Volume.Counted,
        Zeros;
      ghost var g, fat, disk, w := fs.g, fs.Fat(), fs.Logical(), fs.winsect;
      CoreFacts();
      fs.OutsideIs();
      Link(fat, chain, 0);
      OwnsNone(g, fat, chain, others, orgClust);
      var ok := fs.RemoveChain(orgClust);
      fs.OutsideIs();
      RestIsSame(g, disk, fs.Logical());
      RoomZero(g, []);
      NoSect(g, dsect);
      BufferedLess(g, disk, fs.Logical(), chain, [], dirty, dsect, buf[..], w, fs.winsect, 0);
      orgClust := 0;
      chain := [];
      stray := stray || dsect != 0;
    }

    /** Marks cluster k of a chain as its end and frees the rest. */
    method FreeBehind(clst: nat, ncl: nat, ghost ch: seq<nat>, ghost k: nat)
      requires fs.Valid() && fs.g.Marked() && IsChain(fs.Fat(), ch) && k + 1 < |ch| && clst == ch[k] && ncl == ch[k + 1]
      modifies fs, fs.win
      ensures fs.Valid() && fs.Fat() == Truncated(old(fs.Fat()), ch, k, fs.EndMark())
      ensures SameRest(fs.g, old(fs.Logical()), fs.Logical()) && |fs.Logical()| == old(|fs.Logical()|)
      ensures fs.Steady() && fs.g.InFat(fs.winsect)
    {
      hide Volume.Valid, Volume.Logical, Volume.FatBytes, Volume.Fat, Volume.Outside, Rest, IsChain, Zeroed, Freed,
        Truncated, Zeros, Geometry.InFat, SameRest;
      ghost var fat, disk := fs.Fat(), fs.Logical();
      fs.OutsideIs();
      fs.FewEntries();
      Link(fat, ch, k);
      CutTail(fat, ch, k, fs.EndMark());
      ZerosPut(fat, clst, fs.EndMark());
      var ok := fs.PutFat(clst, END_OF_CHAIN);
      ok := fs.RemoveChain(ncl);
      fs.OutsideIs();
      RestIsSame(fs.g, disk, fs.Logical());
    }

    /** Marks cluster k of the file as its end and frees the rest. */
    method CutBehind(ncl: nat, ghost k: nat, ghost n: nat)
      requires Core() && k + 1 < |chain| && currClust == chain[k] && ncl == chain[k + 1]
      requires Room(fs.g, chain[..k + 1], n)
      modifies this`chain, this`stray, fs, fs.win
      ensures stray ==> old(stray) || (dsect != 0 && !HasSect(fs.g, chain, dsect))
      ensures Chained() && (Core() <==> (dirty ==> HasSect(fs.g, chain, dsect)))
      ensures chain == old(chain)[..k + 1] && Bytes(n) == old(Bytes(n))
      ensures CutTo(old(fs.Fat()), old(chain), chain, fs.Fat(), fs.EndMark())
      ensures SameRest(fs.g, old(fs.Logical()), fs.Logical())
      ensures fs.Steady()
    {
      hide Owns, Buffered, Volume.Valid, Volume.Logical, Volume.Fat, Volume.FreeExact, Volume.Counted, FileBytes,
        Proper, IsChain, HasSect, Truncated, Room, SameRest;
      ghost var g, fat, disk, w := fs.g, fs.Fat(), fs.Logical(), fs.winsect;
      CoreFacts();
      OwnsLess(g, fat, chain, others, orgClust, k, fs.EndMark());
      fs.FewEntries();
      FreeBehind(currClust, ncl, chain, k);
      fs.OutsideIs();
      chain := chain[..k + 1];
      stray := stray || (dsect != 0 && !HasSect(g, chain, dsect));
      BufferedLess(g, disk, fs.Logical(), old(chain), chain, dirty, dsect, buf[..], w, fs.winsect, n);
    }

    /** f_truncate behind cluster k of the file: frees the rest, if there is any. */
    method DropTail(ghost k: nat, ghost n: nat)
      requires Core() && k < |chain| && currClust == chain[k]
      requires Room(fs.g, chain[..k + 1], n)
      modifies this`chain, this`stray, fs, fs.win
      ensures stray ==> old(stray) || (dsect != 0 && !HasSect(fs.g, chain, dsect))
      ensures Chained() && (Core() <==> (dirty ==> HasSect(fs.g, chain, dsect)))
      ensures chain == old(chain)[..k + 1] && Bytes(n) == old(Bytes(n))
      ensures CutTo(old(fs.Fat()), old(chain), chain, fs.Fat(), fs.EndMark())
      ensures SameRest(fs.g, old(fs.Logical()), fs.Logical())
      ensures fs.Steady()
    {
      hide File.Core, File.Chained, File.Bytes, Volume.Valid, Volume.Logical, Volume.Fat, IsChain, HasSect, Truncated,
        Room, Volume.FreeExact, Volume.Counted, Geometry.InFat;
      CoreFacts();
      RestSame(fs.g, fs.Logical());
      var ncl := LinkOf(currClust, k, n);
      if ncl < fs.g.nFatent {
        CutBehind(ncl, k, n);
      } else {
        assert chain[..k + 1] == chain;
        DirtyInFile();
      }
    }

    /** Gives up the clusters behind byte fptr - 1. */
    method DropBehind()
      requires Valid() && fptr < fsize
      modifies this`chain, this`orgClust, this`stray, fs, fs.win
      ensures stray ==> old(stray) || (dsect != 0 && !HasSect(fs.g, chain, dsect))
      ensures Chained() && (Core() <==> (dirty ==> HasSect(fs.g, chain, dsect))) && Bytes(fptr) == old(Bytes(fptr))
      ensures chain == Holding(fs.g, old(chain), fptr)
      ensures CutTo(old(fs.Fat()), old(chain), chain, fs.Fat(), fs.EndMark())
      ensures SameRest(fs.g, old(fs.Logical()), fs.Logical())
      ensures fs.Steady()
    {
      hide File.Core, File.Chained, File.Bytes, Volume.Valid, Volume.Logical, Volume.Fat, Room, IsCluster, SectOf,
        HasSect, Holding, CutTo, IsChain, SameRest, Volume.Steady, Zeros, Index, Volume.FreeExact, Volume.Counted,
        Geometry.InFat;
      CoreFacts();
      NoSect(fs.g, dsect);
      NoRoom(fs.g, fsize);
      if fptr == 0 {
        DropAll();
      } else {
        HoldingIs(fs.g, chain, fptr, currClust);
        DropTail(Index(fs.g, (fptr - 1) / 512), fptr);
      }
    }

    /** Gives up the clusters behind the file pointer. */
    method Shorten()
      requires Valid() && fptr < fsize
      modifies this`chain, this`orgClust, this`stray, this`fsize, this`written, fs, fs.win
      ensures stray ==> old(stray) || (dsect != 0 && !HasSect(fs.g, chain, dsect))
      ensures Chained() && (Valid() <==> (dirty ==> HasSect(fs.g, chain, dsect)))
      ensures fsize == fptr && written && Contents() == old(Contents())[..fsize]
      ensures chain == Holding(fs.g, old(chain), fptr)
      ensures CutTo(old(fs.Fat()), old(chain), chain, fs.Fat(), fs.EndMark())
      ensures SameRest(fs.g, old(fs.Logical()), fs.Logical())
      ensures fs.Steady()
    {
      hide File.Core, File.Chained, File.Bytes, Volume.Valid, Volume.Logical, Volume.Fat, Room, IsCluster, SectOf,
        HasSect, Holding, CutTo, IsChain, SameRest, Volume.Steady, Zeros, Index, Volume.FreeExact, Volume.Counted,
        Geometry.InFat;
      CoreFacts();
      FrontOf(fptr, fsize);
      if fptr > 0 {
        HoldingIs(fs.g, chain, fptr, currClust);
      }
      DropBehind();
      RoomZero(fs.g, chain);
      fsize := fptr;
      written := true;
    }

    /** f_truncate: the file ends at the file pointer, and the clusters behind it become free. It does not write the
        buffer back, so the file is in order afterwards exactly if the buffer holds no changes to a cluster given up. */
    method Truncate() returns (res: FResult)
      requires Valid()
      modifies this`chain, this`orgClust, this`stray, this`fsize, this`written, fs, fs.win
      ensures stray ==> old(stray) || (dsect != 0 && !HasSect(fs.g, chain, dsect))
      ensures Chained() && (Valid() <==> (dirty ==> HasSect(fs.g, chain, dsect)))
      ensures res == if error then FrIntErr else if !canWrite then FrDenied else FrOk
      ensures fsize == if res == FrOk then fptr else old(fsize)
      ensures Contents() == old(Contents())[..fsize]
      ensures written <==> old(written) || fsize < old(fsize)
      ensures chain == if fsize < old(fsize) then Holding(fs.g, old(chain), fptr) else old(chain)
      ensures CutTo(old(fs.Fat()), old(chain), chain, fs.Fat(), fs.EndMark())
      ensures SameRest(fs.g, old(fs.Logical()), fs.Logical())
      ensures fs.Steady()
    {
      hide File.Core, File.Chained, File.Bytes, Volume.Valid, Volume.Logical, Volume.Fat, Room, IsCluster, SectOf,
        HasSect, Holding, IsChain, SameRest, Zeros;
      CoreFacts();
      RestSame(fs.g, fs.Logical());
      FrontOf(fsize, fsize);
      DirtyInFile();
      if error {
        return FrIntErr;
      }
      if !canWrite {
        return FrDenied;
      }
      if fsize > fptr {
        Shorten();
      }
      res := FrOk;
    }

    /** Writing the buffer back does not touch the sector of the directory entry. */
    lemma FlushedAside(d0: seq<byte>, d1: seq<byte>, sect: nat, off: nat, time: nat)
      requires SameElsewhere(fs.g, chain, d0, d1) && EntryWritten(d1, sect, off, time)
      requires !HasSect(fs.g, chain, sect) && !InFats(fs.g, sect)
      ensures EntryWritten(d0, sect, off, time)
    {
      hide HasSect, Rewritten;
      forall k | 512 * sect <= k < 512 * sect + 512 ensures d0[k] == d1[k] {
        assert k / 512 == sect;
      }
      var a, z := 512 * sect + off, 512 * sect + 512;
      assert d0[a..a + 32] == d1[a..a + 32] && d0[512 * sect..a] == d1[512 * sect..a] && d0[a + 32..z] == d1[a + 32..z];
    }

    lemma InfoFlushed(changed: bool, d0: seq<byte>, d1: seq<byte>, free: dword, last: dword)
      requires fs.g.Ok(|d0| / 512) && fs.g.DataOk(|d0| / 512) && Proper(fs.g, chain)
      requires SameElsewhere(fs.g, chain, d0, d1) && InfoWritten(changed, d1, free, last)
      ensures InfoWritten(changed, d0, free, last)
    {
      hide Proper, FsInfo, Sector, SameElsewhere;
      InfoElsewhere(fs.g, chain, d0, d1);
    }

    /** f_sync of a file that was written: writes the buffer back, if it is dirty, and the directory entry. */
    method WriteThrough(sect: nat, off: nat, time: dword)
      requires Valid() && off + 32 <= 512
      requires fs.g.fatbase + fs.g.FatArea() <= sect < |fs.disk| / 512 && !HasSect(fs.g, chain, sect)
      modifies this`dirty, fs, fs.win
      ensures Chained() && !dirty && (Core() <==> !Overtaken(sect))
      ensures Contents() == old(Contents()) && fs.Fat() == old(fs.Fat())
      ensures fs.CountKept()
      ensures |fs.disk| == old(|fs.disk|) && OnMedium(sect, off) && EntryWritten(old(fs.Logical()), sect, off, time)
      ensures InfoWritten(old(fs.fsiFlag), old(fs.Logical()), old(fs.freeClust), old(fs.lastClust))
      ensures SameBesides(fs.g, chain, sect, old(fs.Logical()), fs.Logical())
      ensures fs.winsect == sect || fs.winsect == 0
    {
      hide File.Core, File.Chained, File.Bytes, Volume.Valid, Volume.Logical, Volume.Fat, Room, IsCluster, SectOf,
        HasSect, Touched, Splice, IsChain, Zeros, File.Overtaken, File.OnMedium, File.EntryWritten, File.InfoWritten,
        SameElsewhere, SameBesides;
      CoreFacts();
      ghost var d0 := fs.Logical();
      RestElsewhere(fs.g, chain, d0, d0);
      if dirty {
        Flush(fsize);
        CoreFacts();
      }
      ghost var d1 := fs.Logical();
      ElsewhereBesides(fs.g, chain, sect, d0, d1);
      UpdateEntry(sect, off, time);
      BesidesTwice(fs.g, chain, sect, d0, d1, fs.Logical());
      FlushedAside(d0, d1, sect, off, time);
      InfoFlushed(old(fs.fsiFlag), d0, d1, old(fs.freeClust), old(fs.lastClust));
    }

    /** f_sync: writes the buffer, the directory entry at offset `off` of sector `sect`, and everything cached to the
        medium. The file is in order afterwards, unless its buffer, clean, is stray on the sector of the entry. */
    method Sync(sect: nat, off: nat, time: dword)
      requires Valid() && off + 32 <= 512
      requires fs.g.fatbase + fs.g.FatArea() <= sect < |fs.disk| / 512 && !HasSect(fs.g, chain, sect)
      modifies this`dirty, this`written, fs, fs.win
      ensures Chained() && !written && Contents() == old(Contents()) && fs.Fat() == old(fs.Fat())
      ensures dirty <==> old(dirty && !written)
      ensures |fs.disk| == old(|fs.disk|) && fs.CountKept()
      ensures Valid() <==> !(old(written) && Overtaken(sect))
      ensures SameBesides(fs.g, chain, sect, old(fs.Logical()), fs.Logical())
      ensures fs.winsect == old(fs.winsect) || fs.winsect == sect || fs.winsect == 0
      ensures old(written) ==> !dirty && OnMedium(sect, off) && EntryWritten(old(fs.Logical()), sect, off, time)
      ensures old(written) ==> InfoWritten(old(fs.fsiFlag), old(fs.Logical()), old(fs.freeClust), old(fs.lastClust))
      ensures !old(written) ==> fs.disk == old(fs.disk) && fs.Logical() == old(fs.Logical())
    {
      hide File.Core, File.Chained, File.Bytes, File.Contents, Volume.Valid, Volume.Logical, Volume.Fat, Room,
        IsCluster, SectOf, HasSect, IsChain, Zeros, File.Overtaken, File.OnMedium, File.EntryWritten, File.InfoWritten,
        SameElsewhere, SameBesides, Volume.FreeExact, Volume.Counted;
      CoreFacts();
      RestElsewhere(fs.g, chain, fs.Logical(), fs.Logical());
      ElsewhereBesides(fs.g, chain, sect, fs.Logical(), fs.Logical());
      if written {
        WriteThrough(sect, off, time);
        written := false;
      }
    }

    /** The buffer names the sector, but no longer equals it. */
    ghost predicate Overtaken(sect: nat)
      reads `dsect, `orgClust, `chain, `others, fs, fs.win, buf
      requires Chained()
    {
      dsect == sect < |fs.Logical()| / 512 && buf[..] != Sector(fs.Logical(), sect)
    }

    /** The medium alone holds the file: its bytes, and a directory entry that says where they are. */
    ghost predicate OnMedium(sect: nat, off: nat)
      reads `dirty, `dsect, `orgClust, `chain, `others, `fsize, fs, fs.win, buf
      requires Chained() && off + 32 <= 512 && sect < |fs.disk| / 512
    {
      var e := fs.disk[512 * sect + off..512 * sect + off + 32];
      && LdClust(e) == orgClust
      && LdDword(e, SIZE) == fsize
      && fs.disk == fs.Logical()
      && FileBytes(fs.g, fs.disk, chain, false, dsect, buf[..], fsize) == Contents()
    }

    /** The directory entry is that of the disk before, with first cluster, size, time and archive bit of the file that
        was written, and the rest of its sector is as before. */
    ghost predicate EntryWritten(before: seq<byte>, sect: nat, off: nat, time: nat)
      reads `orgClust, `fsize, fs`disk
    {
      RewrittenAt(before, fs.disk, sect, off, fsize, orgClust, time)
    }

    /** On FAT32 the FSInfo sector has what the volume knows of its free clusters, free and last, if that had changed;
        else it is that of the disk before. */
    ghost predicate InfoWritten(changed: bool, before: seq<byte>, free: dword, last: dword)
      reads fs
    {
      && fs.freeClust == free && fs.lastClust == last
      && (fs.g.subType == Fat32 ==>
            && !fs.fsiFlag && fs.g.fsiSector < |fs.disk| / 512 && fs.g.fsiSector < |before| / 512
            && Sector(fs.disk, fs.g.fsiSector) == if changed then FsInfo(free, last) else Sector(before, fs.g.fsiSector))
    }

    /** Rewrites the directory entry in the window. */
    method PutEntry(sect: nat, off: nat, time: dword) returns (ghost e: seq<byte>)
      requires fs.Valid() && fs.g.Marked() && off + 32 <= 512 && fsize < 0x1_0000_0000 && orgClust < fs.g.nFatent
      requires fs.g.fatbase + fs.g.FatArea() <= sect < |fs.disk| / 512
      modifies fs`disk, fs`winsect, fs`wflag, fs.win
      ensures fs.Valid() && fs.Fat() == old(fs.Fat()) && |fs.disk| == old(|fs.disk|) && fs.winsect == sect
      ensures |e| == 32 && LdClust(e) == orgClust && LdDword(e, SIZE) == fsize
      ensures
        var a := 512 * sect + off;
        Rewritten(old(fs.Logical()[a..a + 32]), e, fsize, orgClust, time) &&
          fs.Logical() == Splice(old(fs.Logical()), a, e)
    {
      hide Volume.Valid, Volume.Logical, Entries, Copy, Touched, Splice, LdDword, LdClust, Rewritten, Sector;
      fs.OutsideIs();
      fs.FewEntries();
      fs.MoveWindow(sect);
      fs.WindowIsLogical();
      EntryInSector(fs.Logical(), sect, off);
      var was := fs.win[..][off..off + 32];
      var entry := Touched(was, fsize, orgClust, time);
      TouchedReads(was, fsize, orgClust, time);
      fs.Store(sect, off, entry);
      fs.OutsideIs();
      e := entry;
    }

    /** Rewrites the directory entry in the window and flushes the volume; e is the new entry, and info the FSInfo sector. */
    method StoreEntry(sect: nat, off: nat, time: dword) returns (ghost e: seq<byte>, ghost info: seq<byte>)
      requires fs.Valid() && fs.g.Marked() && off + 32 <= 512 && fsize < 0x1_0000_0000 && orgClust < fs.g.nFatent
      requires fs.g.fatbase + fs.g.FatArea() <= sect < |fs.disk| / 512
      modifies fs, fs.win
      ensures fs.Valid() && fs.Fat() == old(fs.Fat()) && fs.CountKept()
      ensures |e| == 32 && |info| == 512 && LdClust(e) == orgClust && LdDword(e, SIZE) == fsize
      ensures
        var a := 512 * sect + off;
        Rewritten(old(fs.Logical()[a..a + 32]), e, fsize, orgClust, time)
      ensures fs.disk == fs.Logical() && |fs.disk| == old(|fs.disk|) && (fs.winsect == sect || fs.winsect == 0)
      ensures InfoWritten(old(fs.fsiFlag), old(fs.Logical()), old(fs.freeClust), old(fs.lastClust))
      ensures
        var d1 := Splice(old(fs.Logical()), 512 * sect + off, e);
        fs.disk == d1 || (fs.g.subType.Fat32? && fs.disk == Splice(d1, 512 * fs.g.fsiSector, info))
    {
      hide Volume.Valid, Volume.Logical, Volume.Fat, Splice, FsInfo, LdDword, LdClust, Rewritten, Sector, Zeros;
      fs.OutsideIs();
      e := PutEntry(sect, off, time);
      info := FsInfo(fs.freeClust, fs.lastClust);
      ghost var d1, changed := fs.Logical(), fs.g.subType == Fat32 && fs.fsiFlag;
      fs.Sync();
      fs.OutsideIs();
      if fs.g.subType == Fat32 {
        InfoAside(old(fs.Logical()), d1, fs.disk, sect, off, e, fs.g.fsiSector, info, changed);
      }
    }

    /** The directory entry is written, and the file on the medium. */
    method UpdateEntry(sect: nat, off: nat, time: dword)
      requires Valid() && !dirty && off + 32 <= 512
      requires fs.g.fatbase + fs.g.FatArea() <= sect < |fs.disk| / 512 && !HasSect(fs.g, chain, sect)
      modifies fs, fs.win
      ensures Chained() && (Core() <==> !Overtaken(sect))
      ensures fs.CountKept()
      ensures Contents() == old(Contents()) && fs.Fat() == old(fs.Fat())
      ensures |fs.disk| == old(|fs.disk|) && OnMedium(sect, off) && EntryWritten(old(fs.Logical()), sect, off, time)
      ensures InfoWritten(old(fs.fsiFlag), old(fs.Logical()), old(fs.freeClust), old(fs.lastClust))
      ensures SameBesides(fs.g, chain, sect, old(fs.Logical()), fs.Logical())
      ensures fs.winsect == sect || fs.winsect == 0
    {
      hide Owns, Buffered, Volume.Valid, Volume.Logical, Volume.Fat, Volume.FreeExact, Volume.Counted, FileBytes,
        Proper, IsChain, HasSect, SectOf, Splice, Geometry.FatArea, LdDword, LdClust, SameBesides, Rewritten,
        File.InfoWritten, RewrittenAt, InFile, File.AtCluster, File.AtSector;
      ghost var g, d0, w0 := fs.g, fs.Logical(), fs.winsect;
      CoreFacts();
      SmallCluster(fs.Fat(), chain);
      fs.OutsideIs();
      ghost var e, info := StoreEntry(sect, off, time);
      AfterSync(g, d0, fs.disk, chain, dsect, buf[..], w0, fs.winsect, sect, off, e, info, fsize);
      EntryOnDisk(d0, fs.disk, sect, off, e, fsize, orgClust, time);
    }

    lemma FrontOf(n: nat, m: nat)
      requires Core() && n <= m
      ensures Bytes(m)[..n] == Bytes(n)
    {
      hide FileBytes, File.Core, File.Chained;
      Front(fs.g, fs.Logical(), chain, dirty, dsect, buf[..], n, m);
    }

    /** Makes nsect the buffered sector if the file pointer is inside it. */
    method Settle(nsect: nat)
      requires Core() && Room(fs.g, chain, fsize)
      requires fptr % 512 != 0 ==>
        IsCluster(fs.g, chain, fptr / 512, currClust) && nsect == SectOf(fs.g, chain, fptr / 512)
      modifies this`dirty, this`dsect, fs`disk, buf
      ensures Core() && AtSector() && Contents() == old(Contents()) && fs.Fat() == old(fs.Fat())
      ensures fptr % 512 == 0 ==> dirty == old(dirty) && dsect == old(dsect) && buf[..] == old(buf[..])
      ensures SameElsewhere(fs.g, chain, old(fs.Logical()), fs.Logical())
      ensures dirty ==> old(dirty)
    {
      hide File.Core, File.Chained, File.Bytes, Volume.Valid, Volume.Logical, Volume.Fat, Room, IsCluster, SectOf,
        SameElsewhere;
      CoreFacts();
      RestElsewhere(fs.g, chain, fs.Logical(), fs.Logical());
      if fptr % 512 != 0 && nsect != dsect {
        LoadSector(nsect);
      }
    }

    /** Moves the file pointer and brings the sector it points into to the buffer. */
    method Move(offset: nat)
      requires Valid() && (canWrite || offset <= fsize)
      modifies this`fptr, this`dirty, this`dsect, this`currClust, this`chain, this`orgClust, buf, fs, fs.win
      ensures Core() && AtCluster() && AtSector() && Room(fs.g, chain, fsize) && Room(fs.g, chain, fptr)
      ensures Contents() == old(Contents())
      ensures fptr == offset || (fptr < offset && NoneFree(fs.Fat()) && !Room(fs.g, chain, fptr + 1) && canWrite)
      ensures fptr % 512 == 0 ==> dirty == old(dirty) && dsect == old(dsect) && buf[..] == old(buf[..])
      ensures Grew(old(fs.Fat()), old(chain), fs.Fat(), chain)
      ensures SameElsewhere(fs.g, chain, old(fs.Logical()), fs.Logical())
      ensures fs.Steady()
      ensures dirty ==> old(dirty)
    {
      hide File.Core, File.Chained, File.Bytes, File.AtCluster, File.AtSector, Volume.Valid, Volume.Logical,
        Volume.Fat, Grew, Moved, NoneFree, SameElsewhere, Room, IsCluster, SectOf, Clust2Sect, SameRest, Proper,
        IsChain, Zeros;
      CoreFacts();
      ghost var d0 := fs.Logical();
      var nsect := Land(offset);
      ghost var d1 := fs.Logical();
      MovedParts(fs.g, old(fs.Fat()), old(chain), d0, fs.Fat(), chain, d1);
      Settle(nsect);
      ElsewhereTwice(fs.g, chain, chain, d0, d1, fs.Logical());
    }

    /** f_lseek: moves the file pointer, in write mode also past the end, where the file grows. When the disk
        becomes full the pointer stays behind the last cluster; without write access it stays in the file. */
    method Seek(offset: nat) returns (res: FResult)
      requires Valid() && offset < 0x1_0000_0000
      modifies this, buf, fs, fs.win
      ensures Valid() && others == old(others) && error == old(error) && stray == old(stray)
      ensures error ==> res == FrIntErr && fptr == old(fptr) && chain == old(chain)
      ensures !error ==> res == FrOk
      ensures !error && !canWrite ==> fptr == if offset < old(fsize) then offset else old(fsize)
      ensures !error && canWrite && fptr != offset ==> fptr < offset && Full(fs.g, fs.Fat(), chain, fptr)
      ensures fsize == if fptr > old(fsize) then fptr else old(fsize)
      ensures Contents()[..old(fsize)] == old(Contents())
      ensures written <==> old(written) || fsize > old(fsize)
      ensures fptr % 512 == 0 ==> dirty == old(dirty) && dsect == old(dsect) && buf[..] == old(buf[..])
      ensures Grew(old(fs.Fat()), old(chain), fs.Fat(), chain)
      ensures SameElsewhere(fs.g, chain, old(fs.Logical()), fs.Logical())
      ensures fs.Steady()
      ensures dirty ==> old(dirty)
    {
      hide File.Core, File.Chained, File.Bytes, File.AtCluster, File.AtSector, Volume.Valid, Volume.Logical,
        Volume.Fat, Grew, NoneFree, SameElsewhere, Room, IsCluster, SectOf, Zeros;
      CoreFacts();
      GrewNot(fs.Fat(), chain);
      RestElsewhere(fs.g, chain, fs.Logical(), fs.Logical());
      if error {
        return FrIntErr;
      }
      Move(if offset > fsize && !canWrite then fsize else offset);
      FrontOf(fsize, if fptr > fsize then fptr else fsize);
      if fptr > fsize {
        fsize := fptr;
        written := true;
      }
      res := FrOk;
    }

    /** The buffer holds the bytes of the file in the sector of fptr. */
    lemma BufferHolds(cnt: nat)
      requires Core() && IsCluster(fs.g, chain, fptr / 512, currClust) && dsect == SectOf(fs.g, chain, fptr / 512)
      requires fptr % 512 + cnt <= 512 && fptr + cnt <= fsize
      ensures buf[fptr % 512..fptr % 512 + cnt] == Contents()[fptr..fptr + cnt]
    {
      hide Owns, Volume.Valid, Volume.Logical, Volume.Fat, InRun, SectOf, Proper, IsChain, HasSect, IsCluster,
        FileBytes;
      CoreFacts();
      ClusterRun(fs.g, chain, fptr / 512, currClust);
      WindowAway(fs.g, fs.Logical(), chain, dirty, dsect, buf[..], fs.winsect, fptr / 512, 1);
      FatLayout.BufferHolds(fs.g, fs.Logical(), chain, dirty, dsect, buf[..], fsize, fptr, cnt);
      assert buf[..][fptr % 512..fptr % 512 + cnt] == buf[fptr % 512..fptr % 512 + cnt];
    }
  }

  /** A run of the file's sectors lies in the data area, away from the volume's window. */
  lemma WindowAway(g: Geometry, disk: seq<byte>, chain: seq<nat>, dirty: bool, dsect: nat, buf: seq<byte>, w: nat,
                   q: nat, cc: nat)
    requires Buffered(g, disk, chain, dirty, dsect, buf, w) && Proper(g, chain) && InRun(g, chain, q, cc)
    ensures w < SectOf(g, chain, q) || SectOf(g, chain, q) + cc <= w
    ensures g.database <= SectOf(g, chain, q) && SectOf(g, chain, q) + cc <= |disk| / 512
  {
    RunHasSects(g, |disk| / 512, chain, q, cc);
    hide HasSect, SectOf;
    assert !HasSect(g, chain, w);
  }

  /** The chain only grew, into clusters that were free, and no data sector changed. */
  ghost predicate Moved(g: Geometry, f0: seq<nat>, c0: seq<nat>, d0: seq<byte>, f1: seq<nat>, c1: seq<nat>,
                        d1: seq<byte>) {
    Grew(f0, c0, f1, c1) && SameRest(g, d0, d1)
  }

  lemma MovedNot(g: Geometry, f: seq<nat>, c: seq<nat>, d: seq<byte>)
    requires g.Ok(|d| / 512)
    ensures Moved(g, f, c, d, f, c, d)
  {
  }

  lemma MovedTwice(g: Geometry, f0: seq<nat>, c0: seq<nat>, d0: seq<byte>, f1: seq<nat>, c1: seq<nat>, d1: seq<byte>,
                   f2: seq<nat>, c2: seq<nat>, d2: seq<byte>)
    requires Moved(g, f0, c0, d0, f1, c1, d1) && Moved(g, f1, c1, d1, f2, c2, d2)
    ensures Moved(g, f0, c0, d0, f2, c2, d2)
  {
  }

  lemma MovedParts(g: Geometry, f0: seq<nat>, c0: seq<nat>, d0: seq<byte>, f1: seq<nat>, c1: seq<nat>, d1: seq<byte>)
    requires Moved(g, f0, c0, d0, f1, c1, d1)
    ensures Grew(f0, c0, f1, c1) && SameElsewhere(g, c1, d0, d1) && c0 <= c1
  {
  }

  lemma SmallCluster(fat: seq<nat>, chain: seq<nat>)
    requires chain == [] || IsChain(fat, chain)
    ensures chain != [] ==> chain[0] < |fat|
  {
  }

  lemma SyncedSector(g: Geometry, d0: seq<byte>, d2: seq<byte>, sect: nat, off: nat, e: seq<byte>, info: seq<byte>,
                     s: nat)
    requires g.Ok(|d0| / 512) && off + |e| <= 512 && sect < |d0| / 512 && |info| == 512
    requires
      var d1 := Splice(d0, 512 * sect + off, e);
      d2 == d1 || (g.subType.Fat32? && d2 == Splice(d1, 512 * g.fsiSector, info))
    requires s < |d0| / 512 && s != sect && !InRecord(g, s)
    ensures Sector(d2, s) == Sector(d0, s)
  {
  }

  lemma SyncedEntry(g: Geometry, d0: seq<byte>, d2: seq<byte>, sect: nat, off: nat, e: seq<byte>, info: seq<byte>)
    requires g.Ok(|d0| / 512) && off + |e| <= 512 && |info| == 512
    requires g.fatbase + g.FatArea() <= sect < |d0| / 512
    requires
      var d1 := Splice(d0, 512 * sect + off, e);
      d2 == d1 || (g.subType.Fat32? && d2 == Splice(d1, 512 * g.fsiSector, info))
    ensures d2[512 * sect + off..512 * sect + off + |e|] == e
    ensures d2[512 * sect..512 * sect + off] == d0[512 * sect..512 * sect + off]
    ensures d2[512 * sect + off + |e|..512 * sect + 512] == d0[512 * sect + off + |e|..512 * sect + 512]
  {
  }

  /** Writing back a buffer that differs from the disk changes data of the file only exactly if the file has the sector;
      after f_truncate it may be a sector given up, and then in a free cluster or another file's. */
  lemma StrayFlush(g: Geometry, disk: seq<byte>, kept: seq<nat>, dsect: nat, buf: seq<byte>)
    requires g.Ok(|disk| / 512) && g.database <= dsect < |disk| / 512 && |buf| == 512 && buf != Sector(disk, dsect)
    ensures SameElsewhere(g, kept, disk, Splice(disk, 512 * dsect, buf)) <==> HasSect(g, kept, dsect)
  {
    hide HasSect;
    var r := Splice(disk, 512 * dsect, buf);
    if HasSect(g, kept, dsect) {
      SpliceElsewhere(g, disk, kept, dsect, buf);
    } else {
      var i :| 0 <= i < 512 && buf[i] != Sector(disk, dsect)[i];
      assert r[512 * dsect + i] != disk[512 * dsect + i] && (512 * dsect + i) / 512 == dsect;
    }
  }

  /** A clean buffer stays right exactly while its sector does; after f_truncate that may be another file's. */
  lemma CleanStray(g: Geometry, d0: seq<byte>, d1: seq<byte>, chain: seq<nat>, dsect: nat, buf: seq<byte>, w: nat)
    requires Buffered(g, d0, chain, false, dsect, buf, w) && dsect != 0 && |d1| == |d0|
    ensures Buffered(g, d1, chain, false, dsect, buf, w) <==> Sector(d1, dsect) == Sector(d0, dsect)
  {
    hide HasSect;
  }

  lemma SectorSame(g: Geometry, chain: seq<nat>, d0: seq<byte>, d1: seq<byte>, s: nat)
    requires SameElsewhere(g, chain, d0, d1) && s < |d0| / 512 && !InFats(g, s) && !HasSect(g, chain, s)
    ensures Sector(d1, s) == Sector(d0, s)
  {
    hide HasSect;
    forall k | 512 * s <= k < 512 * s + 512 ensures d0[k] == d1[k] {
      assert k / 512 == s;
    }
  }

  lemma InfoElsewhere(g: Geometry, chain: seq<nat>, d0: seq<byte>, d1: seq<byte>)
    requires SameElsewhere(g, chain, d0, d1) && g.Ok(|d0| / 512) && g.DataOk(|d0| / 512) && Proper(g, chain)
    ensures g.subType.Fat32? ==> g.fsiSector < |d0| / 512 && Sector(d1, g.fsiSector) == Sector(d0, g.fsiSector)
  {
    hide SameElsewhere, HasSect, Proper, Sector;
    SectsInData(g, |d0| / 512, chain);
    if g.subType.Fat32? {
      SectorSame(g, chain, d0, d1, g.fsiSector);
    }
  }

  lemma EntryOnDisk(d0: seq<byte>, d2: seq<byte>, sect: nat, off: nat, e: seq<byte>, size: nat, clust: nat, time: nat)
    requires |d0| == |d2| && sect < |d0| / 512 && off + 32 <= 512 && |e| == 32
    requires Rewritten(d0[512 * sect + off..512 * sect + off + 32], e, size, clust, time)
    requires d2[512 * sect + off..512 * sect + off + 32] == e
    requires d2[512 * sect..512 * sect + off] == d0[512 * sect..512 * sect + off]
    requires d2[512 * sect + off + 32..512 * sect + 512] == d0[512 * sect + off + 32..512 * sect + 512]
    ensures RewrittenAt(d0, d2, sect, off, size, clust, time)
  {
    hide Rewritten;
  }

  lemma EntryInSector(d: seq<byte>, s: nat, off: nat)
    requires s < |d| / 512 && off + 32 <= 512
    ensures Sector(d, s)[off..off + 32] == d[512 * s + off..512 * s + off + 32]
  {
    var a, b := Sector(d, s)[off..off + 32], d[512 * s + off..512 * s + off + 32];
    assert forall k :: 0 <= k < 32 ==> a[k] == b[k];
  }

  /** Storing in another sector does not change the one that is written then, or not. */
  lemma InfoAside(d0: seq<byte>, d1: seq<byte>, d2: seq<byte>, sect: nat, off: nat, e: seq<byte>, f: nat,
                  info: seq<byte>, changed: bool)
    requires |e| == 32 && off + 32 <= 512 && |info| == 512 && sect < |d0| / 512 && f < |d0| / 512 && f != sect
    requires d1 == Splice(d0, 512 * sect + off, e) && d2 == if changed then Splice(d1, 512 * f, info) else d1
    ensures Sector(d2, f) == if changed then info else Sector(d0, f)
  {
    assert 512 * f + 512 <= 512 * sect || 512 * sect + 512 <= 512 * f;
    assert Sector(d1, f) == Sector(d0, f);
  }

  /** A directory entry written outside the file, and a sector before the FATs, do not touch the file. */
  lemma AfterSync(g: Geometry, d0: seq<byte>, d2: seq<byte>, chain: seq<nat>, dsect: nat, buf: seq<byte>, w: nat,
                  v: nat, sect: nat, off: nat, e: seq<byte>, info: seq<byte>, n: nat)
    requires Buffered(g, d0, chain, false, dsect, buf, w) && g.Ok(|d0| / 512) && Proper(g, chain) && Room(g, chain, n)
    requires off + |e| <= 512 && g.fatbase + g.FatArea() <= sect < |d0| / 512 && |info| == 512
    requires !HasSect(g, chain, sect) && (v == sect || v == 0)
    requires
      var d1 := Splice(d0, 512 * sect + off, e);
      d2 == d1 || (g.subType.Fat32? && d2 == Splice(d1, 512 * g.fsiSector, info))
    ensures Buffered(g, d2, chain, false, dsect, buf, v) <==> (sect == dsect ==> buf == Sector(d2, dsect))
    ensures FileBytes(g, d2, chain, false, dsect, buf, n) == FileBytes(g, d0, chain, false, dsect, buf, n)
    ensures d2[512 * sect + off..512 * sect + off + |e|] == e
    ensures d2[512 * sect..512 * sect + off] == d0[512 * sect..512 * sect + off]
    ensures d2[512 * sect + off + |e|..512 * sect + 512] == d0[512 * sect + off + |e|..512 * sect + 512]
    ensures SameBesides(g, chain, sect, d0, d2)
  {
    hide SectOf, Proper, Room, Splice, FileBytes, HasSect;
    forall s: nat | s < |d0| / 512 && s != sect && !InRecord(g, s) ensures Sector(d2, s) == Sector(d0, s) {
      SyncedSector(g, d0, d2, sect, off, e, info, s);
    }
    SyncedEntry(g, d0, d2, sect, off, e, info);
    SectsInData(g, |d0| / 512, chain);
    OtherBytes(g, chain, d0, d2, false, dsect, buf, n);
  }

  /** Files without a common cluster have no common sector. */
  lemma NoSharedSect(g: Geometry, sectors: nat, mine: seq<nat>, theirs: seq<nat>, p: nat)
    requires g.DataOk(sectors) && Proper(g, mine) && Proper(g, theirs) && Apart(theirs, mine) && p / g.csize < |theirs|
    ensures !HasSect(g, mine, SectOf(g, theirs, p)) && g.database <= SectOf(g, theirs, p) < sectors
  {
    hide Proper, SectOf;
    SectRange(g, sectors, theirs, p);
    forall q: nat | q / g.csize < |mine| ensures SectOf(g, mine, q) != SectOf(g, theirs, p) {
      if SectOf(g, mine, q) == SectOf(g, theirs, p) {
        SectInjective(g, sectors, theirs, p, mine, q);
        assert false;
      }
    }
  }

  /** Work on one file leaves every other file of the volume alone: its chain, its bytes, and its buffer if that is not
      stray. `mine` is the chain of the file worked on, `theirs` that of another one; `sect` is a sector of neither. */
  lemma OtherFile(g: Geometry, fat: seq<nat>, mine: seq<nat>, others: set<seq<nat>>, org: nat, theirs: seq<nat>,
                  d0: seq<byte>, d1: seq<byte>, dirty: bool, dsect: nat, buf: seq<byte>, w0: nat, w1: nat, n: nat, sect: nat)
    requires Owns(g, fat, mine, others, org) && (theirs == [] || theirs in others) && g.Ok(|d0| / 512)
    requires Buffered(g, d0, theirs, dirty, dsect, buf, w0) && InFile(g, theirs, false, dsect) && Room(g, theirs, n)
    requires SameBesides(g, mine, sect, d0, d1) && !HasSect(g, theirs, sect)
    requires w1 == w0 || g.InFat(w1) || w1 == sect || w1 == 0
    ensures theirs == [] || IsChain(fat, theirs)
    ensures Buffered(g, d1, theirs, dirty, dsect, buf, w1)
    ensures FileBytes(g, d1, theirs, dirty, dsect, buf, n) == FileBytes(g, d0, theirs, dirty, dsect, buf, n)
  {
    OwnsChain(g, fat, mine, others, org);
    assert |buf| == 512 && g.DataOk(|d0| / 512);
    assert theirs == [] || (IsChain(fat, theirs) && Apart(theirs, mine));
    ChainProper(g, fat, theirs);
    hide Owns, Proper, IsChain, Room, HasSect, Apart, SameBesides;
    OtherSectors(g, mine, theirs, d0, d1, sect);
    OtherBytes(g, theirs, d0, d1, dirty, dsect, buf, n);
    SectsInData(g, |d0| / 512, theirs);
  }

  lemma OtherBytes(g: Geometry, theirs: seq<nat>, d0: seq<byte>, d1: seq<byte>, dirty: bool, dsect: nat, buf: seq<byte>,
                   n: nat)
    requires Size(g.csize) && |buf| == 512 && |d1| == |d0| && Room(g, theirs, n)
    requires forall s: nat :: HasSect(g, theirs, s) ==> s < |d0| / 512 && Sector(d1, s) == Sector(d0, s)
    ensures FileBytes(g, d1, theirs, dirty, dsect, buf, n) == FileBytes(g, d0, theirs, dirty, dsect, buf, n)
  {
    hide SectOf, Room, HasSect;
    forall j: nat | j < n
      ensures FileByte(g, d1, theirs, dirty, dsect, buf, j) == FileByte(g, d0, theirs, dirty, dsect, buf, j)
    {
      RoomFor(g, theirs, n, j);
      InChain(g, theirs, j / 512);
      var s := SectOf(g, theirs, j / 512);
      assert Sector(d1, s)[j % 512] == d1[512 * s + j % 512] && Sector(d0, s)[j % 512] == d0[512 * s + j % 512];
    }
  }

  lemma InChain(g: Geometry, chain: seq<nat>, q: nat)
    requires g.csize > 0 && q / g.csize < |chain|
    ensures HasSect(g, chain, SectOf(g, chain, q))
  {
  }

  /** The sectors of a file stay when data of another one and one more sector changed. */
  lemma OtherSectors(g: Geometry, mine: seq<nat>, theirs: seq<nat>, d0: seq<byte>, d1: seq<byte>, sect: nat)
    requires g.DataOk(|d0| / 512) && g.Ok(|d0| / 512) && Proper(g, mine) && Proper(g, theirs)
    requires theirs == [] || Apart(theirs, mine)
    requires SameBesides(g, mine, sect, d0, d1) && !HasSect(g, theirs, sect)
    ensures |d1| == |d0|
    ensures forall s: nat :: HasSect(g, theirs, s) ==> s < |d0| / 512 && Sector(d1, s) == Sector(d0, s)
  {
    hide Proper, SectOf;
    forall s: nat | HasSect(g, theirs, s) ensures s < |d0| / 512 && Sector(d1, s) == Sector(d0, s) {
      var p: nat :| g.csize > 0 && p / g.csize < |theirs| && SectOf(g, theirs, p) == s;
      NoSharedSect(g, |d0| / 512, mine, theirs, p);
      DataIsNoRecord(g, |d0| / 512, s);
    }
  }
}
