/** Directories: finding the place of an entry, searching, registering and removing (dir_sdi, dir_next, dir_find,
    dir_register, dir_remove without long names). */
module FatDir {
  import opened Bytes
  import opened Common
  import opened FatChains
  import opened FatCodec
  import opened FatEntry
  import opened FatFile
  import opened FatLayout
  import opened FatTable
  import opened FatVolume

  const MAX_ENTRIES := 0x1_0000 // the index is a 16-bit word

  /** Is i the index of an entry? The root directory of FAT12 and FAT16 has no chain. */
  predicate InDir(g: Geometry, chain: seq<nat>, i: nat) {
    if chain == [] then i < g.nRootdir else g.csize > 0 && i / 16 / g.csize < |chain|
  }

  /** The sector of entry i. */
  function DirSect(g: Geometry, chain: seq<nat>, i: nat): nat {
    if chain == [] then g.dirbase + i / 16 else SectOf(g, chain, i / 16)
  }

  /** The cluster of entry i, 0 in the root directory of FAT12 and FAT16. */
  function DirCluster(g: Geometry, chain: seq<nat>, i: nat): nat {
    if chain == [] || g.csize == 0 || i / 16 / g.csize >= |chain| then 0 else chain[i / 16 / g.csize]
  }

  /** Bytes of entry i. */
  function EntryAt(g: Geometry, disk: seq<byte>, chain: seq<nat>, i: nat): Entry {
    var a := 512 * DirSect(g, chain, i) + i % 16 * 32;
    if a + 32 <= |disk| then disk[a..a + 32] else seq(ENTRY, _ => 0)
  }

  /** Number of entries, as far as the index reaches. */
  function Length(g: Geometry, chain: seq<nat>): (n: nat)
    ensures n <= MAX_ENTRIES
  {
    var n := if chain == [] then g.nRootdir else |chain| * (16 * g.csize);
    if n < MAX_ENTRIES then n else MAX_ENTRIES
  }

  function Table(g: Geometry, disk: seq<byte>, chain: seq<nat>): (t: seq<Entry>)
    ensures |t| == Length(g, chain)
    ensures forall i :: 0 <= i < |t| ==> t[i] == EntryAt(g, disk, chain, i)
  {
    seq(Length(g, chain), i requires 0 <= i < Length(g, chain) => EntryAt(g, disk, chain, i))
  }

  /** The table lies behind the FATs, and its sectors are its own. */
  ghost predicate Laid(g: Geometry, sectors: nat, chain: seq<nat>) {
    && g.DataOk(sectors)
    && g.fatbase + g.FatArea() <= g.database <= sectors
    && Proper(g, chain)
    && (chain == [] ==>
          g.nRootdir % 16 == 0 && g.fatbase + g.FatArea() <= g.dirbase && g.dirbase + g.nRootdir / 16 <= g.database)
  }

  lemma TimesSize(n: nat, i: nat, k: nat)
    requires Size(n)
    ensures i < k * (16 * n) <==> i / 16 / n < k
  {
  }

  lemma WithinLength(g: Geometry, chain: seq<nat>, i: nat)
    requires Size(g.csize) && i < MAX_ENTRIES
    ensures i < Length(g, chain) <==> InDir(g, chain, i)
  {
    TimesSize(g.csize, i, |chain|);
  }

  lemma DirSectRange(g: Geometry, sectors: nat, chain: seq<nat>, i: nat)
    requires Laid(g, sectors, chain) && InDir(g, chain, i)
    ensures g.fatbase + g.FatArea() <= DirSect(g, chain, i) < sectors
    ensures 512 * DirSect(g, chain, i) + i % 16 * 32 + 32 <= 512 * sectors
  {
    if chain != [] {
      SectRange(g, sectors, chain, i / 16);
    }
  }

  /** Entry i of the root directory of FAT12 and FAT16 lies 32 * i bytes behind its first sector. */
  lemma RootEntryIs(g: Geometry, disk: seq<byte>, i: nat)
    requires Laid(g, |disk| / 512, []) && i < g.nRootdir && i < MAX_ENTRIES
    ensures i < Length(g, []) && 512 * g.dirbase + 32 * i + 32 <= |disk|
    ensures Table(g, disk, [])[i] == disk[512 * g.dirbase + 32 * i..512 * g.dirbase + 32 * i + 32]
  {
    WithinLength(g, [], i);
    DirSectRange(g, |disk| / 512, [], i);
    hide Laid;
    assert 512 * DirSect(g, [], i) + i % 16 * 32 == 512 * g.dirbase + 32 * i;
  }

  /** Of any other directory, the e-th entry in the k-th cluster lies 32 * e bytes behind the start of the cluster. */
  lemma ClusterEntryIs(g: Geometry, disk: seq<byte>, chain: seq<nat>, k: nat, e: nat, i: nat)
    requires Laid(g, |disk| / 512, chain) && k < |chain| && e < 16 * g.csize
    requires i == 16 * (k * g.csize) + e < MAX_ENTRIES
    ensures i < Length(g, chain) && chain[k] >= 2
    ensures
      var a := 512 * (g.database + (chain[k] - 2) * g.csize) + 32 * e;
      a >= 0 && a + 32 <= |disk| && Table(g, disk, chain)[i] == disk[a..a + 32]
  {
    assert Size(g.csize) && Proper(g, chain);
    hide Laid, Length, SectOf, Proper, Geometry.DataOk;
    InCluster(g.csize, k, e, i);
    WithinLength(g, chain, i);
    DirSectRange(g, |disk| / 512, chain, i);
    SectIs(g, chain, i / 16);
  }

  lemma InCluster(n: nat, k: nat, e: nat, i: nat)
    requires Size(n) && e < 16 * n && i == 16 * (k * n) + e
    ensures i / 16 / n == k && i / 16 % n == e / 16 && i % 16 == e % 16
  {
  }

  /** Different entries are at different places. */
  lemma EntriesApart(g: Geometry, sectors: nat, chain: seq<nat>, i: nat, j: nat)
    requires Laid(g, sectors, chain) && InDir(g, chain, i) && InDir(g, chain, j) && i != j
    ensures
      var a, b := 512 * DirSect(g, chain, i) + i % 16 * 32, 512 * DirSect(g, chain, j) + j % 16 * 32;
      a + 32 <= b || b + 32 <= a
  {
    if DirSect(g, chain, i) == DirSect(g, chain, j) {
      if chain != [] {
        SectInjective(g, sectors, chain, i / 16, chain, j / 16);
      }
      assert i / 16 == j / 16;
      assert i % 16 != j % 16;
    }
  }

  lemma SliceStored(disk: seq<byte>, a: nat, d: seq<byte>)
    requires |d| <= 32 && a + 32 <= |disk|
    ensures Splice(disk, a, d)[a..a + 32] == d + disk[a..a + 32][|d|..]
  {
  }

  lemma SliceKept(disk: seq<byte>, a: nat, d: seq<byte>, b: nat)
    requires |d| <= 32 && a + 32 <= |disk| && b + 32 <= |disk| && (a + 32 <= b || b + 32 <= a)
    ensures Splice(disk, a, d)[b..b + 32] == disk[b..b + 32]
  {
  }

  lemma EntryStored(g: Geometry, disk: seq<byte>, chain: seq<nat>, k: nat, d: seq<byte>, i: nat)
    requires Laid(g, |disk| / 512, chain) && InDir(g, chain, k) && InDir(g, chain, i) && |d| <= 32
    requires 512 * DirSect(g, chain, k) + k % 16 * 32 + |d| <= |disk|
    ensures
      EntryAt(g, Splice(disk, 512 * DirSect(g, chain, k) + k % 16 * 32, d), chain, i) ==
      if i == k then d + EntryAt(g, disk, chain, k)[|d|..] else EntryAt(g, disk, chain, i)
  {
    hide DirSect, Laid, InDir;
    DirSectRange(g, |disk| / 512, chain, k);
    DirSectRange(g, |disk| / 512, chain, i);
    var a, b := 512 * DirSect(g, chain, k) + k % 16 * 32, 512 * DirSect(g, chain, i) + i % 16 * 32;
    if i != k {
      EntriesApart(g, |disk| / 512, chain, i, k);
      SliceKept(disk, a, d, b);
    } else {
      SliceStored(disk, a, d);
    }
  }

  /** Writing the front of entry k changes that entry only. */
  lemma StoreEntry(g: Geometry, disk: seq<byte>, chain: seq<nat>, k: nat, d: seq<byte>)
    requires Laid(g, |disk| / 512, chain) && k < Length(g, chain) && InDir(g, chain, k) && |d| <= 32
    requires 512 * DirSect(g, chain, k) + k % 16 * 32 + |d| <= |disk|
    ensures
      Table(g, Splice(disk, 512 * DirSect(g, chain, k) + k % 16 * 32, d), chain) == Changed(Table(g, disk, chain), k, d)
  {
    assert Size(g.csize);
    hide DirSect, Laid, InDir, EntryAt, Splice;
    forall i: nat | i < Length(g, chain)
      ensures EntryAt(g, Splice(disk, 512 * DirSect(g, chain, k) + k % 16 * 32, d), chain, i) ==
              if i == k then d + EntryAt(g, disk, chain, k)[|d|..] else EntryAt(g, disk, chain, i)
    {
      WithinLength(g, chain, i);
      EntryStored(g, disk, chain, k, d, i);
    }
  }

  /** The sectors of the clusters before the last one are not in the last one. */
  lemma BeforeLast(g: Geometry, sectors: nat, longer: seq<nat>, p: nat)
    requires g.DataOk(sectors) && Proper(g, longer) && longer != [] && p / g.csize < |longer| - 1
    ensures
      var s, t := SectOf(g, longer, p), Clust2Sect(g, longer[|longer| - 1]);
      s < t || t + g.csize <= s
  {
    var q := g.csize * (|longer| - 1);
    DivBySize(g.csize, |longer| - 1, 0);
    RunOfSectors(g, sectors, longer, q, g.csize, p);
    if q <= p {
      DivMonotone(g.csize, q, p);
    }
  }

  /** A cluster added and cleared stretches the table by entries that were never used. */
  lemma TableStretched(g: Geometry, d0: seq<byte>, d1: seq<byte>, d2: seq<byte>, chain: seq<nat>, c: nat)
    requires chain != [] && Laid(g, |d0| / 512, chain + [c]) && SameRest(g, d0, d1)
    requires Clust2Sect(g, c) + g.csize <= |d0| / 512
    requires d2 == Splice(d1, 512 * Clust2Sect(g, c), seq(512 * g.csize, _ => 0))
    ensures Length(g, chain) <= Length(g, chain + [c])
    ensures
      Table(g, d2, chain + [c]) == Stretched(Table(g, d0, chain), Length(g, chain + [c]))
  {
    var longer := chain + [c];
    LengthGrows(g, chain, c);
    hide SectOf, Clust2Sect, SameRest, Laid, Proper;
    forall i: nat | i < Length(g, longer)
      ensures EntryAt(g, d2, longer, i) == if i < Length(g, chain) then EntryAt(g, d0, chain, i) else seq(ENTRY, _ => 0)
    {
      WithinLength(g, longer, i);
      WithinLength(g, chain, i);
      if i < Length(g, chain) {
        OldEntry(g, d0, d1, d2, chain, c, i);
      } else {
        NewEntryIsZero(g, d1, d2, chain, c, i);
      }
    }
  }

  /** With the same data the table of a chain is the same. */
  lemma TableSame(g: Geometry, d0: seq<byte>, d1: seq<byte>, chain: seq<nat>)
    requires chain != [] && Laid(g, |d0| / 512, chain) && SameRest(g, d0, d1)
    ensures Table(g, d1, chain) == Table(g, d0, chain)
  {
    assert Size(g.csize);
    hide SectOf, SameRest, Laid, Proper;
    forall i: nat | i < Length(g, chain) ensures EntryAt(g, d1, chain, i) == EntryAt(g, d0, chain, i) {
      WithinLength(g, chain, i);
      SameEntry(g, d0, d1, chain, i);
    }
  }

  lemma SameEntry(g: Geometry, d0: seq<byte>, d1: seq<byte>, chain: seq<nat>, i: nat)
    requires chain != [] && Laid(g, |d0| / 512, chain) && SameRest(g, d0, d1) && InDir(g, chain, i)
    ensures EntryAt(g, d1, chain, i) == EntryAt(g, d0, chain, i)
  {
    SectRange(g, |d0| / 512, chain, i / 16);
    SameSector(g, d0, d1, SectOf(g, chain, i / 16));
    hide SectOf, SameRest, Laid, Proper;
    var a := 512 * SectOf(g, chain, i / 16) + i % 16 * 32;
    assert d1[a..a + 32] == d0[a..a + 32];
  }

  lemma LengthGrows(g: Geometry, chain: seq<nat>, c: nat)
    requires chain != [] && Size(g.csize)
    ensures Length(g, chain) <= Length(g, chain + [c])
  {
  }

  lemma OldEntry(g: Geometry, d0: seq<byte>, d1: seq<byte>, d2: seq<byte>, chain: seq<nat>, c: nat, i: nat)
    requires chain != [] && Laid(g, |d0| / 512, chain + [c]) && SameRest(g, d0, d1) && InDir(g, chain, i)
    requires Clust2Sect(g, c) + g.csize <= |d0| / 512
    requires d2 == Splice(d1, 512 * Clust2Sect(g, c), seq(512 * g.csize, _ => 0))
    ensures EntryAt(g, d2, chain + [c], i) == EntryAt(g, d0, chain, i)
  {
    assert |d1| == |d0|;
    hide SectOf, Clust2Sect, SameRest, Proper;
    var longer := chain + [c];
    SectPrefix(g, chain, longer, i / 16);
    BeforeLast(g, |d0| / 512, longer, i / 16);
    SectRange(g, |d0| / 512, longer, i / 16);
    var s := SectOf(g, chain, i / 16);
    SameSector(g, d0, d1, s);
    var a := 512 * s + i % 16 * 32;
    assert d2[a..a + 32] == d0[a..a + 32];
  }

  lemma NewEntryIsZero(g: Geometry, d1: seq<byte>, d2: seq<byte>, chain: seq<nat>, c: nat, i: nat)
    requires chain != [] && Laid(g, |d1| / 512, chain + [c]) && InDir(g, chain + [c], i) && !InDir(g, chain, i)
    requires Clust2Sect(g, c) + g.csize <= |d1| / 512
    requires d2 == Splice(d1, 512 * Clust2Sect(g, c), seq(512 * g.csize, _ => 0))
    ensures EntryAt(g, d2, chain + [c], i) == seq(ENTRY, _ => 0)
  {
  }

  /** After f_sync of a file that is not the directory, the table has the rewritten entry at its place, all others as they
      were, and every name is found where it was. */
  lemma SyncKeepsTable(g: Geometry, d0: seq<byte>, d1: seq<byte>, dir: seq<nat>, k: nat, mine: seq<nat>,
                       size: nat, clust: nat, time: nat)
    requires Laid(g, |d0| / 512, dir) && g.Ok(|d0| / 512) && k < Length(g, dir) && InDir(g, dir, k)
    requires Proper(g, mine) && (dir == [] || mine == [] || Apart(dir, mine))
    requires SameBesides(g, mine, DirSect(g, dir, k), d0, d1)
    requires RewrittenAt(d0, d1, DirSect(g, dir, k), k % 16 * 32, size, clust, time)
    ensures
      var t, r := Table(g, d0, dir), Table(g, d1, dir);
      && (forall i :: 0 <= i < |t| && i != k ==> r[i] == t[i]) && Rewritten(t[k], r[k], size, clust, time)
      && (TableOk(t) ==> TableOk(r)) && forall n :: FatTable.Find(r, n, 0) == FatTable.Find(t, n, 0)
  {
    assert Size(g.csize);
    hide DirSect, Laid, InDir, EntryAt, Proper, SameBesides, RewrittenAt, Rewritten, TableOk, Apart;
    var t, r := Table(g, d0, dir), Table(g, d1, dir);
    forall i: nat | i < |t| ensures if i == k then Rewritten(t[i], r[i], size, clust, time) else r[i] == t[i] {
      WithinLength(g, dir, i);
      EntrySynced(g, d0, d1, dir, k, mine, size, clust, time, i);
    }
    assert r == t[k := r[k]];
    forall n ensures FatTable.Find(r, n, 0) == FatTable.Find(t, n, 0) && (TableOk(t) ==> TableOk(r)) {
      RewriteKeeps(t, k, r[k], size, clust, time, n, 0);
    }
    RewriteKeeps(t, k, r[k], size, clust, time, [], 0);
  }

  lemma EntrySynced(g: Geometry, d0: seq<byte>, d1: seq<byte>, dir: seq<nat>, k: nat, mine: seq<nat>,
                    size: nat, clust: nat, time: nat, i: nat)
    requires Laid(g, |d0| / 512, dir) && g.Ok(|d0| / 512) && InDir(g, dir, k) && InDir(g, dir, i)
    requires Proper(g, mine) && (dir == [] || mine == [] || Apart(dir, mine))
    requires SameBesides(g, mine, DirSect(g, dir, k), d0, d1)
    requires RewrittenAt(d0, d1, DirSect(g, dir, k), k % 16 * 32, size, clust, time)
    ensures
      var e, r := EntryAt(g, d0, dir, i), EntryAt(g, d1, dir, i);
      if i == k then Rewritten(e, r, size, clust, time) else r == e
  {
    hide DirSect, Laid, InDir, Proper, HasSect, Rewritten, Apart, RewrittenAt, Geometry.Ok, InRecord;
    DirSectRange(g, |d0| / 512, dir, i);
    DirSectRange(g, |d0| / 512, dir, k);
    NotMine(g, |d0| / 512, dir, i, mine);
    if i != k {
      EntriesApart(g, |d0| / 512, dir, i, k);
    }
    SameLength(d0, d1, DirSect(g, dir, k), k % 16 * 32, size, clust, time);
    EntryKept(d0, d1, DirSect(g, dir, k), k % 16 * 32, size, clust, time, DirSect(g, dir, i), i % 16 * 32);
  }

  lemma SameLength(d0: seq<byte>, d1: seq<byte>, s: nat, off: nat, size: nat, clust: nat, time: nat)
    requires RewrittenAt(d0, d1, s, off, size, clust, time)
    ensures |d1| == |d0| && 512 * s + 512 <= |d0|
  {
  }

  /** A directory has no sector of a file, and none of the record of the volume. */
  lemma NotMine(g: Geometry, sectors: nat, dir: seq<nat>, i: nat, mine: seq<nat>)
    requires Laid(g, sectors, dir) && g.Ok(sectors) && InDir(g, dir, i)
    requires Proper(g, mine) && (dir == [] || mine == [] || Apart(dir, mine))
    ensures !HasSect(g, mine, DirSect(g, dir, i)) && !InRecord(g, DirSect(g, dir, i))
  {
    DirSectRange(g, sectors, dir, i);
    hide Apart, HasSect, Proper;
    if mine == [] {
      NoSect(g, DirSect(g, dir, i));
    } else if dir == [] {
      SectsInData(g, sectors, mine);
    } else {
      NoSharedSect(g, sectors, mine, dir, i / 16);
    }
  }

  /** Two places of 32 bytes: the one rewritten, or another one whose bytes are kept. */
  lemma EntryKept(d0: seq<byte>, d1: seq<byte>, s: nat, off: nat, size: nat, clust: nat, time: nat, t: nat, p: nat)
    requires RewrittenAt(d0, d1, s, off, size, clust, time) && p + 32 <= 512 && 512 * t + 512 <= |d0|
    requires t != s ==> Sector(d1, t) == Sector(d0, t)
    requires t == s ==> p + 32 <= off || off + 32 <= p || p == off
    ensures
      var e, r := d0[512 * t + p..512 * t + p + 32], d1[512 * t + p..512 * t + p + 32];
      if t == s && p == off then Rewritten(e, r, size, clust, time) else r == e
  {
    hide Rewritten;
    if t != s {
      Part(d0, 512 * t, 512 * t + 512, p);
      Part(d1, 512 * t, 512 * t + 512, p);
    } else if p + 32 <= off {
      Part(d0, 512 * s, 512 * s + off, p);
      Part(d1, 512 * s, 512 * s + off, p);
    } else if off + 32 <= p {
      Part(d0, 512 * s + off + 32, 512 * s + 512, p - off - 32);
      Part(d1, 512 * s + off + 32, 512 * s + 512, p - off - 32);
    }
  }

  lemma Part(d: seq<byte>, x: nat, y: nat, p: nat)
    requires x + p + 32 <= y <= |d|
    ensures d[x..y][p..p + 32] == d[x + p..x + p + 32]
  {
    var a, b := d[x..y][p..p + 32], d[x + p..x + p + 32];
    assert |a| == |b| && forall i :: 0 <= i < 32 ==> a[i] == b[i];
  }

  // Positions.

  lemma StepBack(n: nat, i: nat)
    requires Size(n) && i >= 16 * n
    ensures (i - 16 * n) / 16 / n == i / 16 / n - 1 && (i - 16 * n) % 16 == i % 16 &&
      (i - 16 * n) / 16 % n == i / 16 % n
  {
  }

  lemma FirstCluster(n: nat, i: nat)
    requires Size(n) && i < 16 * n
    ensures i / 16 / n == 0 && i / 16 % n == i / 16
  {
  }

  lemma Neighbours(n: nat, q: nat)
    requires Size(n) && q % n != 0
    ensures q > 0 && (q - 1) / n == q / n && (q - 1) % n + 1 < n
  {
  }

  /** From entry i to the next. */
  lemma NextPlace(g: Geometry, sectors: nat, chain: seq<nat>, i: nat)
    requires Laid(g, sectors, chain) && InDir(g, chain, i)
    ensures (i + 1) % 16 != 0 ==>
      && InDir(g, chain, i + 1)
      && DirSect(g, chain, i + 1) == DirSect(g, chain, i)
      && DirCluster(g, chain, i + 1) == DirCluster(g, chain, i)
    ensures DirCluster(g, chain, i) == 0 <==> chain == []
    ensures (i + 1) % 16 == 0 && chain == [] ==>
      DirSect(g, chain, i + 1) == DirSect(g, chain, i) + 1 && DirCluster(g, chain, i + 1) == 0
    ensures (i + 1) % 16 == 0 && chain != [] && (i + 1) / 16 % g.csize != 0 ==>
      && InDir(g, chain, i + 1) && DirSect(g, chain, i + 1) == DirSect(g, chain, i) + 1
      && DirCluster(g, chain, i + 1) == DirCluster(g, chain, i)
    ensures (i + 1) % 16 == 0 && chain != [] && (i + 1) / 16 % g.csize == 0 ==>
      var k := i / 16 / g.csize;
      && k < |chain| && DirCluster(g, chain, i) == chain[k] && (i + 1) / 16 / g.csize == k + 1
      && (InDir(g, chain, i + 1) <==> k + 1 < |chain|)
      && (k + 1 < |chain| ==>
            DirCluster(g, chain, i + 1) == chain[k + 1] && DirSect(g, chain, i + 1) == Clust2Sect(g, chain[k + 1]))
  {
    if (i + 1) % 16 != 0 {
      assert (i + 1) / 16 == i / 16;
      if chain == [] {
        assert i < g.nRootdir && g.nRootdir % 16 == 0;
      }
    } else {
      var q := (i + 1) / 16;
      assert q == i / 16 + 1;
      StepInto(g.csize, q);
      if chain != [] && q % g.csize != 0 {
        Neighbours(g.csize, q);
        RunInside(g, chain, q - 1, 1);
      }
    }
  }

  lemma LaidLonger(g: Geometry, sectors: nat, chain: seq<nat>, c: nat)
    requires Laid(g, sectors, chain) && Proper(g, chain + [c])
    ensures Laid(g, sectors, chain + [c])
  {
  }

  /** The last cluster of a chain lies on the medium, and its sectors belong to the chain. */
  lemma LastCluster(g: Geometry, sectors: nat, chain: seq<nat>)
    requires g.DataOk(sectors) && Proper(g, chain) && chain != []
    ensures
      var t := Clust2Sect(g, chain[|chain| - 1]);
      && g.database <= t
      && t + g.csize <= sectors
      && forall s :: t <= s < t + g.csize ==> HasSect(g, chain, s)
  {
    var q := g.csize * (|chain| - 1);
    DivBySize(g.csize, |chain| - 1, 0);
    RunHasSects(g, sectors, chain, q, g.csize);
  }

  /** Is sector s one of the table? */
  ghost predicate InTable(g: Geometry, chain: seq<nat>, s: nat) {
    if chain == [] then g.dirbase <= s < g.dirbase + g.nRootdir / 16 else HasSect(g, chain, s)
  }

  /** Two disks agree outside the FAT copies and the sectors of the table. */
  ghost predicate TableElsewhere(g: Geometry, chain: seq<nat>, a: seq<byte>, b: seq<byte>) {
    |a| == |b| && forall k :: 0 <= k < |a| && a[k] != b[k] ==> InFats(g, k / 512) || InTable(g, chain, k / 512)
  }

  lemma RestTable(g: Geometry, chain: seq<nat>, a: seq<byte>, b: seq<byte>)
    requires SameRest(g, a, b)
    ensures TableElsewhere(g, chain, a, b)
  {
  }

  lemma ClearedTable(g: Geometry, chain: seq<nat>, a: seq<byte>, b: seq<byte>, s: nat, n: nat)
    requires chain != [] && s + n <= |a| / 512 && forall k :: s <= k < s + n ==> HasSect(g, chain, k)
    requires b == Splice(a, 512 * s, seq(512 * n, _ => 0))
    ensures TableElsewhere(g, chain, a, b)
  {
    hide HasSect;
    forall k | 0 <= k < |a| && a[k] != b[k] ensures InTable(g, chain, k / 512) {
      assert s <= k / 512 < s + n;
    }
  }

  lemma TableTwice(g: Geometry, c: seq<nat>, d0: seq<byte>, d1: seq<byte>, d2: seq<byte>)
    requires TableElsewhere(g, c, d0, d1) && TableElsewhere(g, c, d1, d2)
    ensures TableElsewhere(g, c, d0, d2)
  {
    hide InTable;
  }

  /** Storing in an entry changes nothing outside the table. */
  lemma StoreElsewhere(g: Geometry, disk: seq<byte>, chain: seq<nat>, i: nat, off: nat, d: seq<byte>)
    requires Laid(g, |disk| / 512, chain) && InDir(g, chain, i) && off + |d| <= 512
    requires 512 * DirSect(g, chain, i) + off + |d| <= |disk|
    ensures TableElsewhere(g, chain, disk, Splice(disk, 512 * DirSect(g, chain, i) + off, d))
  {
  }

  /** An entry as the window on its sector shows it. */
  lemma EntryShown(g: Geometry, disk: seq<byte>, chain: seq<nat>, i: nat)
    requires Laid(g, |disk| / 512, chain) && InDir(g, chain, i)
    ensures DirSect(g, chain, i) < |disk| / 512
    ensures EntryAt(g, disk, chain, i) == Sector(disk, DirSect(g, chain, i))[i % 16 * 32..i % 16 * 32 + 32]
  {
    DirSectRange(g, |disk| / 512, chain, i);
  }

  /** Cluster c and sector s are those of entry i. */
  predicate Place(g: Geometry, chain: seq<nat>, i: nat, c: nat, s: nat) {
    InDir(g, chain, i) && c == DirCluster(g, chain, i) && s == DirSect(g, chain, i)
  }

  /** A cluster added behind the last one makes room for the entries from its first on. */
  lemma NewPlace(g: Geometry, sectors: nat, chain: seq<nat>, i: nat, c: nat)
    requires chain != [] && Laid(g, sectors, chain) && Laid(g, sectors, chain + [c])
    requires InDir(g, chain, i) && !InDir(g, chain, i + 1)
    ensures Place(g, chain + [c], i + 1, c, Clust2Sect(g, c))
    ensures i + 1 < MAX_ENTRIES ==> i + 1 < Length(g, chain + [c])
  {
    NextPlace(g, sectors, chain, i);
    NextPlace(g, sectors, chain + [c], i);
    if i + 1 < MAX_ENTRIES {
      WithinLength(g, chain + [c], i + 1);
    }
    hide Clust2Sect, SectOf, Laid, Proper;
  }

  lemma PlaceInDir(g: Geometry, chain: seq<nat>, i: nat)
    ensures forall c, s :: Place(g, chain, i, c, s) ==> InDir(g, chain, i)
  {
  }

  lemma InDirOf(g: Geometry, chain: seq<nat>, i: nat, c: nat, s: nat)
    requires Place(g, chain, i, c, s)
    ensures InDir(g, chain, i)
  {
  }

  /** Which sector of its cluster entry i is in. */
  function SectorInCluster(g: Geometry, i: nat): nat {
    if g.csize > 0 then i / 16 % g.csize else 0
  }

  /** The place after the one of entry i, case by case as dir_next tells them apart. */
  lemma PlaceAfter(g: Geometry, sectors: nat, fat: seq<nat>, chain: seq<nat>, i: nat, c: nat, s: nat)
    requires Laid(g, sectors, chain) && Place(g, chain, i, c, s) && g.Ok(sectors)
    requires |fat| == g.nFatent && (chain == [] || IsChain(fat, chain))
    ensures s > 0 && (c == 0 <==> chain == [])
    ensures (i + 1) % 16 != 0 ==> Place(g, chain, i + 1, c, s)
    ensures (i + 1) % 16 == 0 && c == 0 ==>
      if i + 1 < g.nRootdir then Place(g, chain, i + 1, c, s + 1) else !InDir(g, chain, i + 1)
    ensures (i + 1) % 16 == 0 && c != 0 && SectorInCluster(g, i + 1) != 0 ==> Place(g, chain, i + 1, c, s + 1)
    ensures (i + 1) % 16 == 0 && c != 0 && SectorInCluster(g, i + 1) == 0 ==>
      && InRange(fat, c)
      && fat[c] > 1
      && (fat[c] < g.nFatent ==> Place(g, chain, i + 1, fat[c], Clust2Sect(g, fat[c])))
      && (fat[c] >= g.nFatent ==> c == chain[|chain| - 1] && !InDir(g, chain, i + 1))
  {
    hide InDir, DirSect, DirCluster, SectOf, Clust2Sect, IsChain, Proper;
    NextPlace(g, sectors, chain, i);
    DirSectRange(g, sectors, chain, i);
    if chain == [] {
      InStaticTable(g, chain, i + 1);
    } else if (i + 1) % 16 == 0 && (i + 1) / 16 % g.csize == 0 {
      Link(fat, chain, i / 16 / g.csize);
    }
  }

  /** The 16-bit index wraps at its end only. */
  lemma NextIndex(i: nat)
    requires i < MAX_ENTRIES
    ensures (i + 1) % MAX_ENTRIES == if i + 1 == MAX_ENTRIES then 0 else i + 1
  {
  }

  lemma PlaceIs(g: Geometry, sectors: nat, chain: seq<nat>, i: nat, c: nat, s: nat)
    requires Laid(g, sectors, chain) && Place(g, chain, i, c, s) && g.Ok(sectors)
    ensures s > 0 && InDir(g, chain, i)
  {
    DirSectRange(g, sectors, chain, i);
  }

  /** On the way to entry idx: k clusters are behind, and entry idx is the i-th from the start of cluster c on. */
  predicate OnTheWay(g: Geometry, chain: seq<nat>, idx: nat, i: nat, k: nat, c: nat) {
    && g.csize > 0
    && k < |chain|
    && c == chain[k]
    && i / 16 / g.csize + k == idx / 16 / g.csize
    && i % 16 == idx % 16
    && i / 16 % g.csize == idx / 16 % g.csize
  }

  lemma SetOut(g: Geometry, chain: seq<nat>, idx: nat, c: nat)
    requires Size(g.csize) && chain != [] && chain[0] == c
    ensures OnTheWay(g, chain, idx, idx, 0, c)
  {
  }

  lemma InStaticTable(g: Geometry, chain: seq<nat>, idx: nat)
    requires chain == []
    ensures InDir(g, chain, idx) <==> idx < g.nRootdir
    ensures DirSect(g, chain, idx) == g.dirbase + idx / 16 && DirCluster(g, chain, idx) == 0
  {
  }

  lemma FurtherOnTheWay(g: Geometry, fat: seq<nat>, chain: seq<nat>, idx: nat, i: nat, k: nat, c: nat)
    requires Size(g.csize) && OnTheWay(g, chain, idx, i, k, c) && i >= 16 * g.csize
    requires |fat| == g.nFatent && IsChain(fat, chain)
    ensures InRange(fat, c) && fat[c] > 1
    ensures fat[c] >= g.nFatent ==> !InDir(g, chain, idx)
    ensures fat[c] < g.nFatent ==> OnTheWay(g, chain, idx, i - 16 * g.csize, k + 1, fat[c])
  {
    Link(fat, chain, k);
    StepBack(g.csize, i);
  }

  lemma Arrived(g: Geometry, chain: seq<nat>, idx: nat, i: nat, k: nat, c: nat)
    requires Size(g.csize) && OnTheWay(g, chain, idx, i, k, c) && i < 16 * g.csize
    ensures InDir(g, chain, idx) && DirCluster(g, chain, idx) == c &&
      DirSect(g, chain, idx) == Clust2Sect(g, c) + i / 16
    ensures i % 16 == idx % 16
  {
    FirstCluster(g.csize, i);
  }

  /** With entry i + 1 missing, entry i is the last one. */
  lemma EndOfTable(g: Geometry, chain: seq<nat>, i: nat)
    requires Size(g.csize) && InDir(g, chain, i) && i < MAX_ENTRIES
    ensures !InDir(g, chain, i + 1) || i + 1 == MAX_ENTRIES ==> Length(g, chain) == i + 1
    ensures chain == [] ==> (InDir(g, chain, i + 1) <==> i + 1 < g.nRootdir)
  {
    TimesSize(g.csize, i, |chain|);
    TimesSize(g.csize, i + 1, |chain|);
  }

  datatype DirResult = DirOk | NoFile | IntErr | Denied

  /** Name and attribute of the entry at offset off of the window. */
  lemma EntryFields(win: array<byte>, off: nat, e: Entry)
    requires off + ENTRY <= win.Length && win[off..off + ENTRY] == e
    ensures win[off] == e[0] && win[off + ATTRIBUTE] == e[ATTRIBUTE] && win[off..off + NAME] == e[..NAME]
  {
  }

  /** What a step from entry i on comes to, with the chain, disk and FAT before (c0, d0, f0) and after (c1, d1, f1). */
  ghost predicate Outcome(g: Geometry, i: nat, stretch: bool, r: DirResult, c0: seq<nat>, c1: seq<nat>,
                          d0: seq<byte>, d1: seq<byte>, f0: seq<nat>, f1: seq<nat>) {
    if i + 1 < MAX_ENTRIES && InDir(g, c0, i + 1) then
      r == DirOk && c1 == c0 && d1 == d0 && f1 == f0
    else
      && Length(g, c0) == i + 1
      && if !stretch || c0 == [] || i + 1 == MAX_ENTRIES then
           r == NoFile && c1 == c0 && d1 == d0 && f1 == f0
         else
           (r == Denied && NoneFree(f1) && c1 == c0 && f1 == f0) || (r == DirOk && |c1| == |c0| + 1 &&
             i + 1 < Length(g, c1))
  }

  /** Nothing written: a step to an entry that is there, or the end of a table that is not to be stretched. */
  lemma OutcomeIs(g: Geometry, i: nat, stretch: bool, c: seq<nat>, d: seq<byte>, f: seq<nat>)
    requires Size(g.csize) && InDir(g, c, i) && i < MAX_ENTRIES
    ensures i + 1 < MAX_ENTRIES && InDir(g, c, i + 1) ==> Outcome(g, i, stretch, DirOk, c, c, d, d, f, f)
    ensures i + 1 == MAX_ENTRIES || (!InDir(g, c, i + 1) && (!stretch || c == [])) ==>
      Outcome(g, i, stretch, NoFile, c, c, d, d, f, f)
  {
    EndOfTable(g, c, i);
  }

  /** The end of a table that is to be stretched. */
  lemma OutcomeMore(g: Geometry, i: nat, c0: seq<nat>, c1: seq<nat>, d0: seq<byte>, d1: seq<byte>,
                    f0: seq<nat>, f1: seq<nat>)
    requires Size(g.csize) && InDir(g, c0, i) && i + 1 < MAX_ENTRIES && c0 != [] && !InDir(g, c0, i + 1)
    ensures NoneFree(f1) && c1 == c0 && f1 == f0 ==> Outcome(g, i, true, Denied, c0, c1, d0, d1, f0, f1)
    ensures |c1| == |c0| + 1 && i + 1 < Length(g, c1) ==> Outcome(g, i, true, DirOk, c0, c1, d0, d1, f0, f1)
  {
    EndOfTable(g, c0, i);
  }

  lemma OutcomeStay(g: Geometry, i: nat, r: DirResult, c0: seq<nat>, c1: seq<nat>,
                    d0: seq<byte>, d1: seq<byte>, f0: seq<nat>, f1: seq<nat>)
    requires Outcome(g, i, false, r, c0, c1, d0, d1, f0, f1) && Size(g.csize) && i < MAX_ENTRIES
    ensures c1 == c0 && d1 == d0 && f1 == f0
    ensures if r == DirOk then i + 1 < Length(g, c0) else r == NoFile && i + 1 == Length(g, c0)
  {
    if i + 1 < MAX_ENTRIES {
      WithinLength(g, c0, i + 1);
    }
  }

  lemma OutcomeStretch(g: Geometry, i: nat, r: DirResult, c0: seq<nat>, c1: seq<nat>,
                       d0: seq<byte>, d1: seq<byte>, f0: seq<nat>, f1: seq<nat>)
    requires Outcome(g, i, true, r, c0, c1, d0, d1, f0, f1) && Size(g.csize) && i < MAX_ENTRIES
    ensures r == DirOk && c1 == c0 ==> d1 == d0 && f1 == f0 && i + 1 < Length(g, c0)
    ensures r == DirOk && c1 != c0 ==> |c1| == |c0| + 1 && i + 1 == Length(g, c0) < Length(g, c1)
    ensures r != DirOk ==> c1 == c0 && f1 == f0 && i + 1 == Length(g, c0)
    ensures r == NoFile ==> d1 == d0 && (c0 == [] || i + 1 == MAX_ENTRIES)
    ensures r == Denied ==> NoneFree(f1)
    ensures r != IntErr
  {
    if i + 1 < MAX_ENTRIES {
      WithinLength(g, c0, i + 1);
    }
  }

  /** Seeking a blank entry, with table, chain and FAT before (t0, c0, f0) and after (t1, c1, f1). */
  ghost predicate Sought(g: Geometry, r: DirResult, t0: seq<Entry>, t1: seq<Entry>, c0: seq<nat>, c1: seq<nat>,
                         f0: seq<nat>, f1: seq<nat>) {
    var k := FirstBlank(t0, 0);
    && t1 == Stretched(t0, Length(g, c1))
    && (c1 == c0 ==> f1 == f0)
    && (t0 == [] ==> r == IntErr && c1 == c0)
    && (t0 != [] && k < |t0| ==> r == DirOk && c1 == c0)
    && (t0 != [] && k == |t0| ==>
          || (r == NoFile && c1 == c0 && (c0 == [] || |t0| == MAX_ENTRIES))
          || (r == Denied && c1 == c0 && NoneFree(f1))
          || (r == DirOk && |c1| == |c0| + 1 && k < |t1|))
  }

  /** On the way to the first blank entry: the i entries passed are in use, and a table made longer has ended here. */
  ghost predicate Seeking(g: Geometry, i: nat, t0: seq<Entry>, t: seq<Entry>, c0: seq<nat>, c: seq<nat>,
                          d0: seq<byte>, d: seq<byte>, f0: seq<nat>, f: seq<nat>) {
    && i <= |t0| && i < |t| && t == Stretched(t0, Length(g, c))
    && (forall j :: 0 <= j < i ==> !Blank(t0[j]))
    && (if c == c0 then d == d0 && f == f0 else |c| == |c0| + 1 && i == |t0|)
  }

  lemma SeekStarts(g: Geometry, t: seq<Entry>, c: seq<nat>, d: seq<byte>, f: seq<nat>)
    requires |t| == Length(g, c)
    ensures Stretched(t, Length(g, c)) == t
    ensures if t == [] then Sought(g, IntErr, t, t, c, c, f, f) else Seeking(g, 0, t, t, c, c, d, d, f, f)
  {
  }

  /** At a blank entry the search is over. */
  lemma SeekEnds(g: Geometry, i: nat, t0: seq<Entry>, t: seq<Entry>, c0: seq<nat>, c: seq<nat>,
                 d0: seq<byte>, d: seq<byte>, f0: seq<nat>, f: seq<nat>)
    requires Seeking(g, i, t0, t, c0, c, d0, d, f0, f) && Blank(t[i]) && |t0| == Length(g, c0) && |t0| > 0
    ensures FirstBlank(t0, 0) == i && Sought(g, DirOk, t0, t, c0, c, f0, f)
  {
    hide Length;
    FirstBlankIs(t0, i);
  }

  /** Past an entry in use the step of Next goes on, or the table is at its end and cannot be made longer. */
  lemma SeekGoesOn(g: Geometry, i: nat, r: DirResult, t0: seq<Entry>, t: seq<Entry>, t1: seq<Entry>,
                   c0: seq<nat>, c: seq<nat>, c1: seq<nat>, d0: seq<byte>, d: seq<byte>, d1: seq<byte>,
                   f0: seq<nat>, f: seq<nat>, f1: seq<nat>)
    requires Seeking(g, i, t0, t, c0, c, d0, d, f0, f) && !Blank(t[i]) && |t0| == Length(g, c0) && |t0| > 0
    requires Outcome(g, i, true, r, c, c1, d, d1, f, f1) && t1 == Stretched(t, Length(g, c1))
    requires Size(g.csize) && i < MAX_ENTRIES
    ensures c == c0 && d == d0 && f == f0
    ensures if r == DirOk then Seeking(g, i + 1, t0, t1, c0, c1, d0, d1, f0, f1)
      else Sought(g, r, t0, t1, c0, c1, f0, f1)
  {
    OutcomeStretch(g, i, r, c, c1, d, d1, f, f1);
    hide Length, Outcome;
    if r != DirOk {
      FirstBlankIs(t0, |t0|);
    }
  }

  class Dir {
    const fs: Volume
    const sclust: nat      // first cluster, 0 for the root directory
    var fn: seq<byte>      // the name looked for
    var index: nat
    var clust: nat         // cluster of the entry, 0 in the root table of FAT12 and FAT16
    var sect: nat          // sector of the entry
    var off: nat           // offset of the entry in the window
    ghost var chain: seq<nat>
    ghost const others: set<seq<nat>>

    /** The cluster the table starts with; 0 if it has none. */
    function Start(): nat {
      if sclust == 0 && fs.g.subType == Fat32 then fs.g.dirbase else sclust
    }

    ghost predicate Valid()
      reads `fn, `chain, fs, fs.win
      ensures Valid() ==> fs.Valid() && |fn| == NAME
    {
      && fs.Valid()
      && |fn| == NAME
      && Owns(fs.g, fs.Fat(), chain, others, Start()) == true
      && Laid(fs.g, |fs.disk| / 512, chain) == true
    }

    /** The directory's table of entries. */
    ghost function Entries(): (t: seq<Entry>)
      reads `fn, `chain, fs, fs.win
      requires Valid()
      ensures |t| == Length(fs.g, chain)
    {
      Table(fs.g, fs.Logical(), chain)
    }

    /** The object stands on entry i. */
    ghost predicate At(i: nat)
      reads `index, `clust, `sect, `off, `chain
    {
      && index == i < MAX_ENTRIES
      && Place(fs.g, chain, i, clust, sect)
      && off == i % 16 * 32
    }

    /** A directory object for a table found on the volume. */
    constructor (v: Volume, start: nat, name: seq<byte>, ghost ch: seq<nat>, ghost rest: set<seq<nat>>)
      requires v.Valid() && |name| == NAME && Laid(v.g, |v.disk| / 512, ch)
      requires Owns(v.g, v.Fat(), ch, rest, if start == 0 && v.g.subType == Fat32 then v.g.dirbase else start)
      ensures Valid() && fs == v && sclust == start && fn == name && chain == ch && others == rest
    {
      hide Owns, Volume.Valid, Volume.Fat, Laid;
      fs, sclust, fn, index, clust, sect, off := v, start, name, 0, 0, 0, 0;
      chain, others := ch, rest;
    }

    lemma Facts()
      requires Valid()
      ensures |fs.Fat()| == fs.g.nFatent && |fs.Logical()| == |fs.disk| && Laid(fs.g, |fs.disk| / 512, chain)
      ensures fs.g.DataOk(|fs.disk| / 512) && Proper(fs.g, chain) && fs.g.Ok(|fs.disk| / 512)
      ensures NoOnes(fs.Fat()) && fs.g.Marked()
      ensures chain == [] <==> Start() == 0
      ensures chain != [] ==> chain[0] == Start() && IsChain(fs.Fat(), chain) && InRange(fs.Fat(), Start())
    {
      OwnsChain(fs.g, fs.Fat(), chain, others, Start());
      fs.OutsideIs();
    }

    /** A directory starts at its first cluster. First cluster 0 stands for the root directory: on FAT32 it starts at
        the cluster that the boot record names, on FAT12 and FAT16 it has no clusters. */
    lemma StartsAt()
      requires Valid() && (fs.g.subType == Fat32 ==> fs.g.dirbase > 0)
      ensures sclust > 0 ==> chain != [] && chain[0] == sclust
      ensures sclust == 0 && fs.g.subType == Fat32 ==> chain != [] && chain[0] == fs.g.dirbase
      ensures sclust == 0 && fs.g.subType != Fat32 ==> chain == []
    {
      Facts();
    }

    /** With nothing written everything is as it was. */
    lemma Still()
      requires Valid()
      ensures Grew(fs.Fat(), chain, fs.Fat(), chain)
      ensures TableElsewhere(fs.g, chain, fs.Logical(), fs.Logical())
      ensures Stretched(Entries(), Length(fs.g, chain)) == Entries()
    {
      hide Owns, Volume.Valid, Volume.Logical, Volume.Fat, TableElsewhere, Grew, Table, Laid;
      Facts();
      GrewNot(fs.Fat(), chain);
      RestSame(fs.g, fs.Logical());
      RestTable(fs.g, chain, fs.Logical(), fs.Logical());
    }

    /** Reads the FAT entry of a cluster of the table. */
    method Follow(clst: nat) returns (c: nat)
      requires Valid() && InRange(fs.Fat(), clst)
      modifies fs`disk, fs`winsect, fs`wflag, fs.win
      ensures Valid() && fs.Logical() == old(fs.Logical()) && fs.Fat() == old(fs.Fat()) && Entries() == old(Entries())
      ensures |fs.disk| == old(|fs.disk|) && c == fs.Fat()[clst]
      ensures fs.CountKept()
    {
      hide Owns, Volume.Valid, Volume.Logical, Volume.FatBytes, Volume.Fat, Volume.Outside, Laid, Table;
      Facts();
      c := fs.GetFat(clst);
    }

    /** Walks from the first cluster to the one of entry idx; c is no cluster if the chain ends before it. */
    method Walk(start: nat, idx: nat) returns (c: nat, i: nat)
      requires Valid() && chain != [] && start == chain[0]
      modifies fs`disk, fs`winsect, fs`wflag, fs.win
      ensures Valid() && fs.Logical() == old(fs.Logical()) && fs.Fat() == old(fs.Fat())
      ensures 2 <= c < fs.g.nFatent <==> InDir(fs.g, chain, idx)
      ensures InDir(fs.g, chain, idx) ==>
        DirCluster(fs.g, chain, idx) == c && DirSect(fs.g, chain, idx) == Clust2Sect(fs.g, c) + i / 16 &&
        i % 16 == idx % 16
      ensures fs.CountKept()
    {
      hide Owns, Volume.Valid, Volume.Logical, Volume.FatBytes, Volume.Fat, Volume.Outside, Laid, IsChain, Proper,
        Clust2Sect, OnTheWay, InDir, DirSect, DirCluster;
      Facts();
      ghost var g, fat := fs.g, fs.Fat();
      var ic: nat := 16 * fs.g.csize;
      c, i := start, idx;
      ghost var k: nat := 0;
      SetOut(g, chain, idx, c);
      while i >= ic
        invariant Valid() && fs.Logical() == old(fs.Logical()) && fs.Fat() == fat
        invariant fs.CountKept()
        invariant OnTheWay(g, chain, idx, i, k, c) && InRange(fat, c)
        decreases i
      {
        FurtherOnTheWay(g, fat, chain, idx, i, k, c);
        c := Follow(c);
        if c < 2 || c >= fs.g.nFatent {
          return;
        }
        i := i - ic;
        k := k + 1;
      }
      Arrived(g, chain, idx, i, k, c);
    }

    /** Goes to entry idx; fails exactly if the table has no such entry. */
    method Sdi(idx: nat) returns (r: DirResult)
      requires Valid() && idx < MAX_ENTRIES
      modifies this`index, this`clust, this`sect, this`off, fs`disk, fs`winsect, fs`wflag, fs.win
      ensures Valid() && fs.Logical() == old(fs.Logical()) && fs.Fat() == old(fs.Fat()) && Entries() == old(Entries())
      ensures index == idx && r in {DirOk, IntErr}
      ensures r == DirOk <==> InDir(fs.g, chain, idx)
      ensures r == DirOk ==> At(idx)
      ensures fs.CountKept()
    {
      hide Owns, Volume.Valid, Volume.Logical, Volume.FatBytes, Volume.Fat, Volume.Outside, Laid, IsChain, Proper,
        Clust2Sect, InDir, DirSect, DirCluster;
      Facts();
      if chain == [] {
        InStaticTable(fs.g, chain, idx);
      }
      index := idx;
      var c: nat := sclust;
      if c == 1 || c >= fs.g.nFatent {
        return IntErr;
      }
      if c == 0 && fs.g.subType == Fat32 {
        c := fs.g.dirbase;
      }
      if c == 0 {
        clust := c;
        if idx >= fs.g.nRootdir {
          return IntErr;
        }
        sect := fs.g.dirbase + idx / 16;
        off := idx % 16 * 32;
        return DirOk;
      }
      var i: nat;
      c, i := Walk(c, idx);
      if c < 2 || c >= fs.g.nFatent {
        return IntErr;
      }
      clust := c;
      sect := Clust2Sect(fs.g, c) + i / 16;
      off := i % 16 * 32;
      r := DirOk;
    }

    /** Takes a cluster for the table, behind its last one; 0 if the disk is full. */
    method TakeCluster() returns (c: nat)
      requires Valid() && chain != [] && clust == chain[|chain| - 1]
      modifies this`chain, fs, fs.win
      ensures Valid() && c != 1 && |fs.disk| == old(|fs.disk|)
      ensures c == 0 ==> chain == old(chain) && NoneFree(fs.Fat()) && fs.Fat() == old(fs.Fat())
      ensures c != 0 ==> chain == old(chain) + [c]
      ensures Table(fs.g, fs.Logical(), old(chain)) == old(Entries())
      ensures Grew(old(fs.Fat()), old(chain), fs.Fat(), chain)
      ensures SameRest(fs.g, old(fs.Logical()), fs.Logical())
      ensures fs.CountKept()
    {
      hide Owns, Volume.Valid, Volume.Logical, Volume.FatBytes, Volume.Fat, Volume.Outside, Laid, IsChain, Proper,
        Clust2Sect, Created, Grew, NoneFree, Table, Rest, HasSect, Splice, Volume.Hint, NoOnes, SameRest, Zeros,
        Geometry.InFat;
      Facts();
      ghost var g, fat, disk := fs.g, fs.Fat(), fs.Logical();
      ghost var hint := fs.Hint();
      fs.FewEntries();
      fs.OutsideIs();
      c := fs.CreateChain(clust);
      fs.OutsideIs();
      AfterCreate(g, fat, chain, others, Start(), |chain|, hint, c, fs.Fat(), fs.EndMark(), Cut(g.subType, c));
      RestIsSame(g, disk, fs.Logical());
      TableSame(g, disk, fs.Logical(), chain);
      if c != 0 && c != 1 {
        LaidLonger(g, |fs.disk| / 512, chain, c);
        chain := chain + [c];
      }
    }

    /** A cluster more for the table, filled with zeros; 0 if the disk is full. */
    method Stretch() returns (c: nat)
      requires Valid() && chain != [] && clust == chain[|chain| - 1]
      modifies this`chain, fs, fs.win
      ensures Valid() && c != 1 && |fs.disk| == old(|fs.disk|)
      ensures c == 0 ==> chain == old(chain) && NoneFree(fs.Fat()) && fs.Fat() == old(fs.Fat())
      ensures c == 0 ==> Entries() == old(Entries())
      ensures c != 0 ==> chain == old(chain) + [c] && Length(fs.g, old(chain)) <= Length(fs.g, chain)
      ensures c != 0 ==> Entries() == Stretched(old(Entries()), Length(fs.g, chain))
      ensures Grew(old(fs.Fat()), old(chain), fs.Fat(), chain)
      ensures TableElsewhere(fs.g, chain, old(fs.Logical()), fs.Logical())
      ensures fs.CountKept()
    {
      hide Owns, Volume.Valid, Volume.Logical, Volume.FatBytes, Volume.Fat, Volume.Outside, Laid, IsChain, Proper,
        Clust2Sect, Grew, NoneFree, Table, Rest, HasSect, Splice, TableElsewhere, SameRest, Length, Zeros, NoOnes;
      ghost var g, before, disk := fs.g, chain, fs.Logical();
      c := TakeCluster();
      Facts();
      ghost var created := fs.Logical();
      RestTable(g, chain, disk, created);
      if c == 0 {
        return;
      }
      LastCluster(g, |fs.disk| / 512, chain);
      fs.ClearSectors(Clust2Sect(fs.g, c), fs.g.csize);
      ClearedTable(g, chain, created, fs.Logical(), Clust2Sect(g, c), g.csize);
      TableTwice(g, chain, disk, created, fs.Logical());
      TableStretched(g, disk, created, fs.Logical(), before, c);
    }

    /** Stretch behind the last entry, where Next asks for it. */
    method Lengthen() returns (c: nat)
      requires Valid() && At(index) && index + 1 < MAX_ENTRIES && !InDir(fs.g, chain, index + 1)
      requires chain != [] && clust == chain[|chain| - 1]
      modifies this`chain, fs, fs.win
      ensures Valid() && c != 1 && (c != 0 ==> Place(fs.g, chain, index + 1, c, Clust2Sect(fs.g, c)))
      ensures Outcome(fs.g, index, true, if c == 0 then Denied else DirOk, old(chain), chain,
                      old(fs.Logical()), fs.Logical(), old(fs.Fat()), fs.Fat())
      ensures Entries() == Stretched(old(Entries()), Length(fs.g, chain))
      ensures Grew(old(fs.Fat()), old(chain), fs.Fat(), chain)
      ensures TableElsewhere(fs.g, chain, old(fs.Logical()), fs.Logical())
      ensures fs.CountKept()
    {
      hide Dir.Valid, Dir.Entries, Owns, Volume.Valid, Volume.Logical, Volume.FatBytes, Volume.Fat, Volume.Outside,
        Laid, IsChain, Proper, Clust2Sect, Grew, NoneFree, Table, HasSect, InDir, DirSect, DirCluster, Length,
        TableElsewhere, Outcome;
      Facts();
      ghost var was, disk, fat, sectors := chain, fs.Logical(), fs.Fat(), |fs.disk| / 512;
      InDirOf(fs.g, chain, index, clust, sect);
      c := Stretch();
      Facts();
      if c != 0 {
        NewPlace(fs.g, sectors, was, index, c);
      }
      OutcomeMore(fs.g, index, was, chain, disk, fs.Logical(), fat, fs.Fat());
    }

    /** The step of Next over the end of cluster clust. */
    method Cross(stretch: bool) returns (r: DirResult)
      requires Valid() && At(index) && index + 1 < MAX_ENTRIES
      requires clust != 0 && (index + 1) % 16 == 0 && SectorInCluster(fs.g, index + 1) == 0
      modifies this`clust, this`sect, this`chain, fs, fs.win
      ensures Valid() && (r == DirOk ==> Place(fs.g, chain, index + 1, clust, sect))
      ensures Outcome(fs.g, index, stretch, r, old(chain), chain,
                      old(fs.Logical()), fs.Logical(), old(fs.Fat()), fs.Fat())
      ensures Entries() == Stretched(old(Entries()), Length(fs.g, chain))
      ensures Grew(old(fs.Fat()), old(chain), fs.Fat(), chain)
      ensures TableElsewhere(fs.g, chain, old(fs.Logical()), fs.Logical())
      ensures fs.CountKept()
    {
      hide Dir.Valid, Dir.Entries, Owns, Volume.Valid, Volume.Logical, Volume.FatBytes, Volume.Fat, Volume.Outside,
        Laid, IsChain, Proper, Clust2Sect, Grew, NoneFree, Table, HasSect, InDir, DirSect, DirCluster, Length,
        TableElsewhere, SectorInCluster, Outcome;
      Facts();
      ghost var g, fat, disk, sectors := fs.g, fs.Fat(), fs.Logical(), |fs.disk| / 512;
      Still();
      OutcomeIs(g, index, stretch, chain, disk, fat);
      PlaceInDir(g, chain, index + 1);
      PlaceAfter(g, sectors, fat, chain, index, clust, sect);
      InDirOf(g, chain, index, clust, sect);
      hide Place, Stretched;
      var c := Follow(clust);
      if c <= 1 {
        return IntErr;
      }
      if c >= fs.g.nFatent {
        if !stretch {
          return NoFile;
        }
        c := Lengthen();
        if c == 0 {
          return Denied;
        }
        if c == 1 {
          return IntErr;
        }
      }
      clust := c;
      sect := Clust2Sect(fs.g, c);
      r := DirOk;
    }

    /** Goes to the sector of the next entry, another one at the end of a sector. */
    method Over(stretch: bool) returns (r: DirResult)
      requires Valid() && At(index) && index + 1 < MAX_ENTRIES
      modifies this`clust, this`sect, this`chain, fs, fs.win
      ensures Valid() && (r == DirOk ==> Place(fs.g, chain, index + 1, clust, sect))
      ensures Outcome(fs.g, index, stretch, r, old(chain), chain,
                      old(fs.Logical()), fs.Logical(), old(fs.Fat()), fs.Fat())
      ensures Entries() == Stretched(old(Entries()), Length(fs.g, chain))
      ensures Grew(old(fs.Fat()), old(chain), fs.Fat(), chain)
      ensures TableElsewhere(fs.g, chain, old(fs.Logical()), fs.Logical())
      ensures fs.CountKept()
    {
      hide Dir.Valid, Dir.Entries, Owns, Volume.Valid, Volume.Logical, Volume.FatBytes, Volume.Fat, Volume.Outside,
        Laid, IsChain, Proper, Clust2Sect, Grew, NoneFree, Table, HasSect, InDir, DirSect, DirCluster, Length,
        TableElsewhere, SectorInCluster, Outcome;
      Facts();
      ghost var g, fat, disk, sectors := fs.g, fs.Fat(), fs.Logical(), |fs.disk| / 512;
      Still();
      OutcomeIs(g, index, stretch, chain, disk, fat);
      PlaceAfter(g, sectors, fat, chain, index, clust, sect);
      PlaceInDir(g, chain, index + 1);
      hide Place;
      if (index + 1) % 16 != 0 {
        return DirOk;
      }
      if clust != 0 && SectorInCluster(fs.g, index + 1) == 0 {
        r := Cross(stretch);
        return r;
      }
      sect := sect + 1;
      if clust == 0 && index + 1 >= fs.g.nRootdir {
        return NoFile;
      }
      r := DirOk;
    }

    /** Goes to the next entry, to the place where Sdi would find it. At the end of the table it fails, or stretches
        the table if asked to; the index does not go past 65535. */
    method Next(stretch: bool) returns (r: DirResult)
      requires Valid() && At(index)
      modifies this`index, this`clust, this`sect, this`off, this`chain, fs, fs.win
      ensures Valid() && (if r == DirOk then At(old(index) + 1) else index == old(index) && off == old(off))
      ensures Outcome(fs.g, old(index), stretch, r, old(chain), chain,
                      old(fs.Logical()), fs.Logical(), old(fs.Fat()), fs.Fat())
      ensures Entries() == Stretched(old(Entries()), Length(fs.g, chain))
      ensures Grew(old(fs.Fat()), old(chain), fs.Fat(), chain)
      ensures TableElsewhere(fs.g, chain, old(fs.Logical()), fs.Logical())
      ensures fs.CountKept()
    {
      hide Dir.Valid, Dir.Entries, Owns, Volume.Valid, Volume.Logical, Volume.FatBytes, Volume.Fat, Volume.Outside,
        Laid, IsChain, Proper, Clust2Sect, Grew, NoneFree, Table, HasSect, InDir, DirSect, DirCluster, Length,
        TableElsewhere, SectorInCluster, Outcome, Stretched, Volume.FreeExact, Volume.Counted;
      Facts();
      ghost var g, fat, disk, sectors := fs.g, fs.Fat(), fs.Logical(), |fs.disk| / 512;
      Still();
      OutcomeIs(g, index, stretch, chain, disk, fat);
      PlaceIs(g, sectors, chain, index, clust, sect);
      hide Place;
      NextIndex(index);
      var i := (index + 1) % MAX_ENTRIES;
      if i == 0 || sect == 0 {
        return NoFile;
      }
      r := Over(stretch);
      if r == DirOk {
        index := i;
        off := i % 16 * 32;
      }
    }

    /** Brings the sector of the current entry into the window. */
    method Show()
      requires Valid() && At(index)
      modifies fs`disk, fs`winsect, fs`wflag, fs.win
      ensures Valid() && fs.Logical() == old(fs.Logical()) && fs.Fat() == old(fs.Fat()) && Entries() == old(Entries())
      ensures fs.winsect == sect && fs.g.fatbase + fs.g.FatArea() <= sect < |fs.disk| / 512
      ensures index < |Entries()| && off + 32 <= fs.win.Length == 512
      ensures fs.win[off..off + 32] == Entries()[index]
      ensures fs.CountKept()
    {
      hide Owns, Volume.Logical, Mirrored, Laid, IsChain, Proper, Table, DirSect, InDir, DirCluster, EntryAt, Copy,
        FatCodec.Entries;
      Facts();
      DirSectRange(fs.g, |fs.disk| / 512, chain, index);
      EntryShown(fs.g, fs.Logical(), chain, index);
      WithinLength(fs.g, chain, index);
      fs.MoveWindow(sect);
      fs.WindowIsLogical();
    }

    /** Looks at the current entry: is it blank, is the table over, is it the entry of the name? */
    method Look() returns (blank: bool, over: bool, found: bool)
      requires Valid() && At(index)
      modifies fs`disk, fs`winsect, fs`wflag, fs.win
      ensures Valid() && fs.Logical() == old(fs.Logical()) && fs.Fat() == old(fs.Fat()) && Entries() == old(Entries())
      ensures index < |Entries()|
      ensures
        var e := Entries()[index];
        blank == FatTable.Blank(e) && over == (e[0] == 0) && found == Matches(e, fn)
      ensures fs.CountKept()
    {
      hide Dir.Valid, Dir.Entries, Volume.Valid, Volume.Logical, Volume.Fat;
      Show();
      EntryFields(fs.win, off, Entries()[index]);
      over := fs.win[off] == 0;
      blank := over || fs.win[off] as int == DELETED;
      found := fs.win[off + ATTRIBUTE] as int / 8 % 2 == 0 && fs.win[off..off + NAME] == fn;
    }

    /** Looks for the name from the current entry on. */
    method FindOn() returns (r: DirResult)
      requires Valid() && At(index) && index < |Entries()|
      modifies this`index, this`clust, this`sect, this`off, this`chain, fs, fs.win
      ensures Valid() && chain == old(chain) && fs.Logical() == old(fs.Logical()) && fs.Fat() == old(fs.Fat())
      ensures Entries() == old(Entries())
      ensures
        var k := FatTable.Find(Entries(), fn, old(index));
        if k < |Entries()| then r == DirOk && At(k) else r == NoFile
      ensures fs.CountKept()
    {
      hide Dir.Valid, Dir.Entries, Owns, Volume.Valid, Volume.Logical, Volume.FatBytes, Volume.Fat, Volume.Outside,
        Laid, IsChain, Proper, Table, DirSect, InDir, DirCluster, EntryAt, Length, Grew, NoneFree, Zeros,
        TableElsewhere, Outcome, FatTable.Find, Matches, Blank, Place, Volume.FreeExact, Volume.Counted, Size,
        Geometry.DataOk, Geometry.Ok;
      Facts();
      ghost var t, d, f, from := Entries(), fs.Logical(), fs.Fat(), index;
      while true
        invariant Valid() && At(index) && chain == old(chain)
        invariant fs.Logical() == d && fs.Fat() == f && Entries() == t
        invariant index < |t| && FatTable.Find(t, fn, from) == FatTable.Find(t, fn, index)
        invariant fs.CountKept()
        decreases |t| - index
      {
        var _, over, found := Look();
        FindStep(t, fn, index);
        if over {
          return NoFile;
        }
        if found {
          return DirOk;
        }
        ghost var at := index;
        r := Next(false);
        OutcomeStay(fs.g, at, r, old(chain), chain, d, fs.Logical(), f, fs.Fat());
        if r != DirOk {
          return r;
        }
      }
    }

    /** Looks for the name in the table; an empty table is an error. */
    method Find() returns (r: DirResult)
      requires Valid()
      modifies this`index, this`clust, this`sect, this`off, this`chain, fs, fs.win
      ensures Valid() && chain == old(chain) && fs.Logical() == old(fs.Logical()) && fs.Fat() == old(fs.Fat())
      ensures Entries() == old(Entries())
      ensures
        var k := FatTable.Find(Entries(), fn, 0);
        if Entries() == [] then r == IntErr else if k < |Entries()| then r == DirOk && At(k) else r == NoFile
      ensures fs.CountKept()
    {
      hide Dir.Valid, Dir.Entries, Owns, Volume.Valid, Volume.Logical, Volume.FatBytes, Volume.Fat, Volume.Outside,
        Laid, IsChain, Proper, Table, InDir, Length, FatTable.Find, Volume.FreeExact, Volume.Counted;
      Facts();
      WithinLength(fs.g, chain, 0);
      r := Sdi(0);
      if r == DirOk {
        r := FindOn();
      }
    }

    /** Changes the front of the current entry. */
    method Change(d: seq<byte>)
      requires Valid() && At(index) && |d| <= ENTRY
      modifies fs`disk, fs`winsect, fs`wflag, fs.win
      ensures Valid() && fs.Fat() == old(fs.Fat()) && Entries() == Changed(old(Entries()), index, d)
      ensures TableElsewhere(fs.g, chain, old(fs.Logical()), fs.Logical())
      ensures fs.CountKept()
    {
      hide Owns, Volume.Valid, Volume.Logical, Volume.FatBytes, Volume.Fat, Volume.Outside, Laid, IsChain, Proper,
        DirSect, InDir, DirCluster, EntryAt, Length, TableElsewhere;
      Facts();
      ghost var disk := fs.Logical();
      WithinLength(fs.g, chain, index);
      DirSectRange(fs.g, |fs.disk| / 512, chain, index);
      StoreEntry(fs.g, disk, chain, index, d);
      StoreElsewhere(fs.g, disk, chain, index, off, d);
      fs.Store(sect, off, d);
      fs.OutsideIs();
    }

    /** Goes to the first blank entry, in a table made longer if need be. */
    method SeekBlank() returns (r: DirResult)
      requires Valid()
      modifies this`index, this`clust, this`sect, this`off, this`chain, fs, fs.win
      ensures Valid() && (r == DirOk ==> At(FirstBlank(old(Entries()), 0)))
      ensures Sought(fs.g, r, old(Entries()), Entries(), old(chain), chain, old(fs.Fat()), fs.Fat())
      ensures Grew(old(fs.Fat()), old(chain), fs.Fat(), chain)
      ensures TableElsewhere(fs.g, chain, old(fs.Logical()), fs.Logical())
      ensures fs.CountKept()
    {
      hide Dir.Valid, Dir.Entries, Owns, Volume.Valid, Volume.Logical, Volume.FatBytes, Volume.Fat, Volume.Outside,
        Laid, IsChain, Proper, Table, DirSect, InDir, DirCluster, EntryAt, Length, Grew, NoneFree, Zeros,
        TableElsewhere, Outcome, Blank, Matches, Place, Volume.FreeExact, Volume.Counted, Geometry.DataOk, Geometry.Ok,
        Stretched, Seeking, Sought;
      Facts();
      ghost var g, t0, c0, f0, d0 := fs.g, Entries(), chain, fs.Fat(), fs.Logical();
      GrewNot(f0, c0);
      RestSame(g, d0);
      RestTable(g, c0, d0, d0);
      WithinLength(g, chain, 0);
      r := Sdi(0);
      SeekStarts(g, t0, c0, d0, f0);
      if r != DirOk {
        return r;
      }
      while true
        invariant Valid() && At(index)
        invariant Seeking(g, index, t0, Entries(), c0, chain, d0, fs.Logical(), f0, fs.Fat())
        invariant Grew(f0, c0, fs.Fat(), chain) && TableElsewhere(g, chain, d0, fs.Logical())
        invariant fs.CountKept()
        decreases MAX_ENTRIES - index
      {
        ghost var at, t, c, d, f := index, Entries(), chain, fs.Logical(), fs.Fat();
        var blank, _, _ := Look();
        if blank {
          SeekEnds(g, index, t0, t, c0, c, d0, d, f0, f);
          return DirOk;
        }
        r := Next(true);
        SeekGoesOn(g, at, r, t0, t, Entries(), c0, c, chain, d0, d, fs.Logical(), f0, f, fs.Fat());
        if r != DirOk {
          return r;
        }
      }
    }

    /** Registers the name in the first blank entry. */
    method Register() returns (r: DirResult)
      requires Valid()
      modifies this`index, this`clust, this`sect, this`off, this`chain, fs, fs.win
      ensures Valid() && (r == DirOk ==> At(FirstBlank(old(Entries()), 0)))
      ensures
        var wide := Stretched(old(Entries()), Length(fs.g, chain));
        && Sought(fs.g, r, old(Entries()), wide, old(chain), chain, old(fs.Fat()), fs.Fat())
        && Entries() == if r == DirOk then Changed(wide, FirstBlank(old(Entries()), 0), NewEntry(fn))
          else old(Entries())
      ensures r == DirOk && TableOk(old(Entries())) && IsName(fn) && Lookup(old(Entries()), fn) == None ==>
        Adds(old(Entries()), fn, Entries())
      ensures Grew(old(fs.Fat()), old(chain), fs.Fat(), chain)
      ensures TableElsewhere(fs.g, chain, old(fs.Logical()), fs.Logical())
      ensures fs.CountKept()
    {
      hide Dir.Valid, Dir.Entries, Owns, Volume.Valid, Volume.Logical, Volume.FatBytes, Volume.Fat, Volume.Outside,
        Laid, IsChain, Proper, Table, DirSect, InDir, DirCluster, Length, Grew, NoneFree, TableElsewhere, HasSect,
        TableOk, Lookup, Adds, FirstBlank, Changed;
      ghost var t, g, d0 := Entries(), fs.g, fs.Logical();
      r := SeekBlank();
      if r == DirOk {
        ghost var d1, wide := fs.Logical(), Entries();
        Show();
        Change(fn + seq(ENTRY - NAME, _ => 0));
        Facts();
        TableTwice(g, chain, d0, d1, fs.Logical());
        ChangedIs(wide, FirstBlank(t, 0), fn);
        if TableOk(t) && IsName(fn) && Lookup(t, fn) == None {
          RegisterStretched(t, Length(g, chain), fn);
        }
      }
    }

    /** Deletes the current entry; fails exactly if the index is not that of an entry. */
    method Remove() returns (r: DirResult)
      requires Valid() && index < MAX_ENTRIES
      modifies this`clust, this`sect, this`index, this`off, fs, fs.win
      ensures Valid() && index == old(index) && r in {DirOk, IntErr} && fs.Fat() == old(fs.Fat())
      ensures r == DirOk <==> index < |old(Entries())|
      ensures Entries() == if r == DirOk then Changed(old(Entries()), index, [DELETED]) else old(Entries())
      ensures r == DirOk && TableOk(old(Entries())) && IsName(fn) && Lookup(old(Entries()), fn) != None &&
              index == FatTable.Find(old(Entries()), fn, 0) ==>
        Deletes(old(Entries()), fn, Entries())
      ensures TableElsewhere(fs.g, chain, old(fs.Logical()), fs.Logical())
      ensures fs.CountKept()
    {
      hide Dir.Valid, Dir.Entries, Owns, Volume.Valid, Volume.Logical, Volume.FatBytes, Volume.Fat, Volume.Outside,
        Laid, IsChain, Proper, Table, DirSect, InDir, DirCluster, Length, TableElsewhere, TableOk, Deletes, Changed;
      ghost var t, d0 := Entries(), fs.Logical();
      Facts();
      RestSame(fs.g, d0);
      RestTable(fs.g, chain, d0, d0);
      WithinLength(fs.g, chain, index);
      r := Sdi(index);
      if r == DirOk {
        Show();
        Change([DELETED]);
        ChangedIs(t, index, fn);
        if TableOk(t) && IsName(fn) && Lookup(t, fn) != None && index == FatTable.Find(t, fn, 0) {
          RemoveDeletes(t, fn);
        }
      }
    }
  }
}
