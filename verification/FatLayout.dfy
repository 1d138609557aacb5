/** Where the bytes of a file lie: file offset to cluster chain to sector, and a file's contents on a disk seen
    through the file's one-sector buffer. */
module FatLayout {
  import opened Bytes
  import opened Common
  import opened FatChains
  import opened FatVolume

  /** First sector of a cluster; 0 for an invalid cluster number. */
  function Clust2Sect(g: Geometry, clst: nat): nat {
    if clst < 2 || clst >= g.nFatent then 0 else (clst - 2) * g.csize + g.database
  }

  /** Sector 0 is the answer for exactly the cluster numbers that name no cluster. */
  lemma NoSector(g: Geometry, clst: nat)
    requires g.database > 0
    ensures Clust2Sect(g, clst) == 0 <==> clst < 2 || clst >= g.nFatent
  {
    if clst >= 2 {
      assert (clst - 2) * g.csize >= 0;
    }
  }

  /** The sector that holds the q-th sector of a file with this chain; 0 past the chain. */
  function SectOf(g: Geometry, chain: seq<nat>, q: nat): nat {
    if g.csize > 0 && q / g.csize < |chain| then Clust2Sect(g, chain[q / g.csize]) + q % g.csize else 0
  }

  /** Position in the chain of the q-th sector of a file. */
  function Index(g: Geometry, q: nat): (i: nat)
    ensures q == 0 ==> i == 0
  {
    if g.csize > 0 then q / g.csize else 0
  }

  /** Sector in its cluster of the q-th sector of a file. */
  function Csect(g: Geometry, q: nat): (r: nat)
    ensures q == 0 ==> r == 0
  {
    if g.csize > 0 then q % g.csize else 0
  }

  /** Is c the cluster of the q-th sector of a file with this chain? */
  predicate IsCluster(g: Geometry, chain: seq<nat>, q: nat, c: nat) {
    g.csize > 0 && q / g.csize < |chain| && c == chain[q / g.csize]
  }

  /** Do the cc sectors of the file from the q-th on exist and lie in one cluster? */
  predicate InRun(g: Geometry, chain: seq<nat>, q: nat, cc: nat) {
    g.csize > 0 && q / g.csize < |chain| && q % g.csize + cc <= g.csize
  }

  /** Has the chain room for n bytes? */
  predicate Room(g: Geometry, chain: seq<nat>, n: nat) {
    n == 0 || (g.csize > 0 && (n - 1) / 512 / g.csize < |chain|)
  }

  /** The clusters of a chain are distinct and valid. */
  ghost predicate Proper(g: Geometry, chain: seq<nat>) {
    && (forall i :: 0 <= i < |chain| ==> 2 <= chain[i] < g.nFatent)
    && (forall i, j :: 0 <= i < j < |chain| ==> chain[i] != chain[j])
  }

  lemma ChainProper(g: Geometry, fat: seq<nat>, chain: seq<nat>)
    requires |fat| == g.nFatent && (chain == [] || IsChain(fat, chain))
    ensures Proper(g, chain)
  {
    forall i, j | 0 <= i < j < |chain| ensures chain[i] != chain[j] {
      ChainAcyclic(fat, chain, i, j);
    }
  }

  // Arithmetic with a cluster size that is a power of two up to 128.

  predicate Size(n: nat) {
    n in {1, 2, 4, 8, 16, 32, 64, 128}
  }

  lemma Decompose(n: nat, c: nat, o: nat, d: nat, p: nat)
    requires Size(n) && o < n && p < n
    ensures c * n + o == d * n + p ==> c == d && o == p
    ensures c < d ==> c * n + o < d * n
  {
  }

  /** Stepping inside a cluster. */
  lemma StepInside(n: nat, q: nat, i: nat)
    requires Size(n) && q % n + i < n
    ensures (q + i) / n == q / n && (q + i) % n == q % n + i
  {
  }

  /** Crossing into a sector. */
  lemma StepInto(n: nat, q: nat)
    requires Size(n) && q > 0
    ensures if q % n == 0 then q / n == (q - 1) / n + 1 else q / n == (q - 1) / n
  {
  }

  /** The sector of the last byte after a step inside a sector. */
  lemma AdvanceInside(p: nat, cnt: nat)
    requires 0 < cnt && p % 512 + cnt <= 512
    ensures (p + cnt - 1) / 512 == p / 512
    ensures (p + cnt) % 512 != 0 ==> (p + cnt) / 512 == p / 512
    ensures p % 512 != 0 ==> p > 0 && (p - 1) / 512 == p / 512
  {
  }

  /** How many of n bytes from offset p on lie in the sector of p. */
  function InSameSector(p: nat, n: nat): (cnt: nat)
    ensures cnt <= n && p % 512 + cnt <= 512 && (n > 0 ==> cnt > 0)
  {
    if n < 512 - p % 512 then n else 512 - p % 512
  }

  /** Inside a sector the sector stays. */
  lemma SectorStays(g: Geometry, chain: seq<nat>, p: nat, cnt: nat, s: nat)
    requires 0 < cnt && p % 512 + cnt <= 512 && s == SectOf(g, chain, p / 512)
    ensures (p + cnt) % 512 != 0 ==> s == SectOf(g, chain, (p + cnt) / 512)
  {
  }

  lemma AdvanceWhole(p: nat, cc: nat)
    requires p % 512 == 0
    ensures (p + 512 * cc) % 512 == 0 && 512 * (p / 512) == p && 512 * cc / 512 == cc && 512 * cc % 512 == 0
  {
  }

  /** The cluster of the last byte after a step over whole sectors of one cluster. */
  lemma AdvanceSectors(n: nat, q: nat, cc: nat)
    requires Size(n) && 0 < cc && q % n + cc <= n
    ensures (512 * (q + cc) - 1) / 512 / n == q / n
    ensures q > 0 ==> (512 * q - 1) / 512 == q - 1
  {
  }

  /** At a sector boundary behind byte p - 1 in cluster c, the next sector is in c too, or in the cluster after. */
  lemma Entering(g: Geometry, chain: seq<nat>, p: nat, c: nat)
    requires Size(g.csize) && p > 0 && p % 512 == 0 && IsCluster(g, chain, (p - 1) / 512, c)
    ensures
      var q := p / 512;
      if Csect(g, q) == 0 then 0 < Index(g, q) <= |chain| && c == chain[Index(g, q) - 1] else IsCluster(g, chain, q, c)
  {
    AdvanceSectors(g.csize, p / 512, 1);
    StepInto(g.csize, p / 512);
  }

  /** The sector from the cluster, as the transfer loops compute it. */
  lemma SectFromCluster(g: Geometry, chain: seq<nat>, q: nat, c: nat)
    requires IsCluster(g, chain, q, c)
    ensures Clust2Sect(g, c) + Csect(g, q) == SectOf(g, chain, q)
    ensures Csect(g, q) < g.csize && InRun(g, chain, q, g.csize - Csect(g, q))
  {
  }

  lemma InRunLess(g: Geometry, chain: seq<nat>, q: nat, cc: nat, fewer: nat)
    requires InRun(g, chain, q, cc) && fewer <= cc
    ensures InRun(g, chain, q, fewer)
  {
  }

  lemma ClusterRun(g: Geometry, chain: seq<nat>, q: nat, c: nat)
    requires IsCluster(g, chain, q, c)
    ensures InRun(g, chain, q, 1)
  {
  }

  /** After cnt more bytes in the sector of offset p, or whole sectors in its cluster, the current cluster is still
      that of the last byte, and the chain has room. */
  lemma Advanced(g: Geometry, chain: seq<nat>, p: nat, cnt: nat, c: nat, n: nat)
    requires Size(g.csize) && IsCluster(g, chain, p / 512, c) && Room(g, chain, n) && cnt > 0
    requires p % 512 + cnt <= 512 || (p % 512 == 0 && cnt % 512 == 0 && InRun(g, chain, p / 512, cnt / 512))
    ensures IsCluster(g, chain, (p + cnt - 1) / 512, c)
    ensures Room(g, chain, if n < p + cnt then p + cnt else n)
  {
    if p % 512 + cnt <= 512 {
      AdvanceInside(p, cnt);
    } else {
      assert p + cnt == 512 * (p / 512 + cnt / 512);
      AdvanceSectors(g.csize, p / 512, cnt / 512);
    }
  }

  /** Offsets inside the file have their cluster in the chain. */
  lemma RoomIndex(g: Geometry, chain: seq<nat>, n: nat, p: nat)
    requires Size(g.csize) && Room(g, chain, n) && p < n
    ensures Index(g, p / 512) < |chain|
  {
  }

  lemma AtIndex(g: Geometry, chain: seq<nat>, q: nat, c: nat)
    requires Size(g.csize) && Index(g, q) < |chain| && c == chain[Index(g, q)]
    ensures IsCluster(g, chain, q, c)
  {
  }

  // Whole clusters, as seeking walks them.

  /** Offset p is the first byte of a cluster of the file, c. */
  predicate StartOf(g: Geometry, chain: seq<nat>, p: nat, c: nat) {
    p % 512 == 0 && g.csize > 0 && p / 512 % g.csize == 0 && IsCluster(g, chain, p / 512, c)
  }

  /** Where the cluster of byte p begins. */
  function ClusterStart(g: Geometry, p: nat): int {
    if g.csize > 0 then p - p % (512 * g.csize) else 0
  }

  lemma DivBySize(n: nat, k: nat, o: nat)
    requires Size(n) && o < n
    ensures (n * k + o) / n == k && (n * k + o) % n == o
  {
  }

  lemma DivByBytes(n: nat, p: nat)
    requires Size(n)
    ensures p % (512 * n) <= p && p - p % (512 * n) == 512 * (n * (p / (512 * n))) && p % (512 * n) / 512 < n
  {
  }

  lemma Rounded(n: nat, p: nat)
    requires Size(n)
    ensures
      var s := p - p % (512 * n);
      s % 512 == 0 && s / 512 % n == 0 && s / 512 / n == p / 512 / n && 0 <= s <= p
  {
    DivByBytes(n, p);
    var k, r := p / (512 * n), p % (512 * n);
    var q := n * k;
    assert p == 512 * q + r;
    assert p / 512 == q + r / 512;
    DivBySize(n, k, 0);
    DivBySize(n, k, r / 512);
  }

  lemma SameClusterLater(n: nat, p: nat, q: nat)
    requires Size(n)
    ensures q / (512 * n) >= p / (512 * n) ==> p - p % (512 * n) <= q
    ensures q / (512 * n) < p / (512 * n) ==> q < p
  {
  }

  /** The start of a cluster is found by clearing the offset bits. */
  lemma AtClusterStart(g: Geometry, chain: seq<nat>, p: nat, c: nat)
    requires Size(g.csize) && IsCluster(g, chain, p / 512, c)
    ensures 0 <= ClusterStart(g, p) <= p && StartOf(g, chain, ClusterStart(g, p), c)
  {
    Rounded(g.csize, p);
  }

  lemma FirstStart(g: Geometry, chain: seq<nat>)
    requires Size(g.csize) && chain != []
    ensures StartOf(g, chain, 0, chain[0])
  {
  }

  lemma StartIs(g: Geometry, chain: seq<nat>, p: nat, c: nat)
    requires StartOf(g, chain, p, c)
    ensures p % 512 == 0 && Index(g, p / 512) < |chain| && c == chain[Index(g, p / 512)]
  {
  }

  lemma StepCluster(n: nat, p: nat)
    requires Size(n) && p % 512 == 0 && p / 512 % n == 0
    ensures (p + 512 * n) % 512 == 0 && (p + 512 * n) / 512 % n == 0 && (p + 512 * n) / 512 / n == p / 512 / n + 1
    ensures (p + 512 * n - 1) / 512 / n == p / 512 / n
  {
    if n == 1 {} else if n == 2 {} else if n == 4 {} else if n == 8 {}
    else if n == 16 {} else if n == 32 {} else if n == 64 {} else {}
  }

  /** One cluster further, along the chain or past its end. */
  lemma NextStart(g: Geometry, chain: seq<nat>, p: nat, c: nat)
    requires Size(g.csize) && StartOf(g, chain, p, c)
    ensures
      var i, r := Index(g, p / 512) + 1, p + 512 * g.csize;
      && i <= |chain| && Index(g, r / 512) == i
      && (i < |chain| ==> StartOf(g, chain, r, chain[i]))
      && (i == |chain| ==> Room(g, chain, r) && !Room(g, chain, r + 1))
  {
    StepCluster(g.csize, p);
  }

  lemma WithinCluster(n: nat, p: nat, o: nat)
    requires Size(n) && p % 512 == 0 && p / 512 % n == 0 && o < 512 * n
    ensures (p + o) / 512 / n == p / 512 / n && (p + o) / 512 % n == o / 512 && (p + o) % 512 == o % 512
  {
    if n == 1 {} else if n == 2 {} else if n == 4 {} else if n == 8 {}
    else if n == 16 {} else if n == 32 {} else if n == 64 {} else {}
  }

  /** Landing o bytes behind the start of a cluster, at most one cluster further. */
  lemma Landing(g: Geometry, chain: seq<nat>, p: nat, c: nat, o: nat)
    requires Size(g.csize) && StartOf(g, chain, p, c) && 0 < o <= 512 * g.csize
    ensures IsCluster(g, chain, (p + o - 1) / 512, c) && Room(g, chain, p + o)
    ensures (p + o) % 512 == o % 512
    ensures o % 512 != 0 ==> IsCluster(g, chain, (p + o) / 512, c)
    ensures o % 512 != 0 ==> Clust2Sect(g, c) + o / 512 == SectOf(g, chain, (p + o) / 512)
  {
    WithinCluster(g.csize, p, o - 1);
    if o < 512 * g.csize {
      WithinCluster(g.csize, p, o);
    }
  }

  lemma StartPrefix(g: Geometry, chain: seq<nat>, longer: seq<nat>, p: nat, c: nat)
    requires StartOf(g, chain, p, c) && chain <= longer
    ensures StartOf(g, longer, p, c)
  {
  }

  lemma RoomZero(g: Geometry, chain: seq<nat>)
    ensures Room(g, chain, 0)
  {
  }

  lemma NoRoomBehind(g: Geometry, chain: seq<nat>, p: nat)
    requires Index(g, p / 512) >= |chain|
    ensures !Room(g, chain, p + 1)
  {
  }

  lemma NoRoom(g: Geometry, n: nat)
    ensures Room(g, [], n) <==> n == 0
  {
  }

  /** The front of what a file holds. */
  lemma Front(g: Geometry, disk: seq<byte>, chain: seq<nat>, dirty: bool, dsect: nat, buf: seq<byte>, n: nat, m: nat)
    requires |buf| == 512 && n <= m
    ensures FileBytes(g, disk, chain, dirty, dsect, buf, m)[..n] == FileBytes(g, disk, chain, dirty, dsect, buf, n)
  {
  }

  lemma RoomMore(g: Geometry, chain: seq<nat>, longer: seq<nat>, n: nat)
    requires Room(g, chain, n) && |chain| <= |longer|
    ensures Room(g, longer, n)
  {
  }

  lemma DivMonotone(n: nat, p: nat, q: nat)
    requires Size(n) && p <= q
    ensures p / n <= q / n
  {
  }

  lemma Recompose(n: nat, p: nat, q: nat)
    requires Size(n) && p / n == q / n && p % n == q % n
    ensures p == q
  {
  }

  lemma SectIs(g: Geometry, chain: seq<nat>, q: nat)
    requires Size(g.csize) && Proper(g, chain) && q / g.csize < |chain|
    ensures 2 <= chain[q / g.csize] < g.nFatent
    ensures Clust2Sect(g, chain[q / g.csize]) == (chain[q / g.csize] - 2) * g.csize + g.database
    ensures SectOf(g, chain, q) == (chain[q / g.csize] - 2) * g.csize + g.database + q % g.csize
    ensures q % g.csize < g.csize
  {
  }

  /** Data sectors lie in the data area. */
  lemma SectRange(g: Geometry, sectors: nat, chain: seq<nat>, q: nat)
    requires g.DataOk(sectors) && Proper(g, chain) && q / g.csize < |chain|
    ensures g.database <= SectOf(g, chain, q) < sectors
    ensures Clust2Sect(g, chain[q / g.csize]) >= g.database
    ensures Clust2Sect(g, chain[q / g.csize]) + g.csize <= sectors
  {
    hide SectOf, Clust2Sect, Proper;
    SectIs(g, chain, q);
    var c := chain[q / g.csize];
    Decompose(g.csize, c - 2, q % g.csize, g.nFatent - 2, 0);
    Decompose(g.csize, c - 2, g.csize - 1, g.nFatent - 2, 0);
  }

  /** Different sectors of a file, or sectors of files with no common cluster, are different. */
  lemma SectInjective(g: Geometry, sectors: nat, a: seq<nat>, p: nat, b: seq<nat>, q: nat)
    requires g.DataOk(sectors) && Proper(g, a) && Proper(g, b)
    requires p / g.csize < |a| && q / g.csize < |b| && SectOf(g, a, p) == SectOf(g, b, q)
    ensures a[p / g.csize] == b[q / g.csize]
    ensures a == b ==> p == q
  {
    Unique(g, a, p / g.csize, b, q / g.csize);
    hide SectOf, Clust2Sect, Proper;
    SectIs(g, a, p);
    SectIs(g, b, q);
    Decompose(g.csize, a[p / g.csize] - 2, p % g.csize, b[q / g.csize] - 2, q % g.csize);
    if a == b {
      Recompose(g.csize, p, q);
    }
  }

  lemma Unique(g: Geometry, a: seq<nat>, i: nat, b: seq<nat>, j: nat)
    requires Proper(g, a) && i < |a| && j < |b|
    ensures a == b && a[i] == b[j] ==> i == j
  {
  }

  // Contents of a file.

  /** Byte j of the file: from the buffer if it holds that sector dirty, else from the disk. */
  function FileByte(g: Geometry, disk: seq<byte>, chain: seq<nat>, dirty: bool, dsect: nat, buf: seq<byte>,
                    j: nat): byte
    requires |buf| == 512
  {
    var s := SectOf(g, chain, j / 512);
    if dirty && s == dsect then buf[j % 512] else if 512 * s + 512 <= |disk| then disk[512 * s + j % 512] else 0
  }

  function FileBytes(g: Geometry, disk: seq<byte>, chain: seq<nat>, dirty: bool, dsect: nat, buf: seq<byte>,
                     n: nat): (r: seq<byte>)
    requires |buf| == 512
    ensures |r| == n
    ensures forall j :: 0 <= j < n ==> r[j] == FileByte(g, disk, chain, dirty, dsect, buf, j)
  {
    seq(n, j requires 0 <= j < n => FileByte(g, disk, chain, dirty, dsect, buf, j))
  }

  /** c with w written at offset p, longer than c if need be. */
  function Patch(c: seq<byte>, p: nat, w: seq<byte>): (r: seq<byte>)
    requires p <= |c|
    ensures |r| == if |c| < p + |w| then p + |w| else |c|
    ensures forall j :: 0 <= j < |r| ==> r[j] == if p <= j < p + |w| then w[j - p] else c[j]
  {
    c[..p] + w + if p + |w| < |c| then c[p + |w|..] else []
  }

  lemma PatchTwice(c: seq<byte>, p: nat, v: seq<byte>, w: seq<byte>)
    requires p <= |c|
    ensures Patch(Patch(c, p, v), p + |v|, w) == Patch(c, p, v + w)
  {
  }

  lemma PatchEmpty(c: seq<byte>, p: nat)
    requires p <= |c|
    ensures Patch(c, p, []) == c
  {
  }

  /** Does sector s belong to the file? */
  ghost predicate HasSect(g: Geometry, chain: seq<nat>, s: nat) {
    exists q: nat :: g.csize > 0 && q / g.csize < |chain| && SectOf(g, chain, q) == s
  }

  /** Offsets within the chain's room lie in its sectors. */
  lemma RoomFor(g: Geometry, chain: seq<nat>, n: nat, j: nat)
    requires Size(g.csize) && Room(g, chain, n) && j < n
    ensures j / 512 / g.csize < |chain|
  {
  }

  /** A write-back of the buffer changes no byte of the file. */
  lemma FlushSame(g: Geometry, disk: seq<byte>, chain: seq<nat>, dsect: nat, buf: seq<byte>, n: nat)
    requires g.DataOk(|disk| / 512) && Proper(g, chain) && |buf| == 512 && Room(g, chain, n)
    requires HasSect(g, chain, dsect) && 512 * dsect + 512 <= |disk|
    ensures FileBytes(g, Splice(disk, 512 * dsect, buf), chain, false, dsect, buf, n) ==
            FileBytes(g, disk, chain, true, dsect, buf, n)
  {
  }

  /** The sectors from the q-th on in the same cluster are consecutive on the disk. */
  lemma RunInside(g: Geometry, chain: seq<nat>, q: nat, i: nat)
    requires Size(g.csize) && Proper(g, chain) && q / g.csize < |chain| && q % g.csize + i < g.csize
    ensures (q + i) / g.csize == q / g.csize && SectOf(g, chain, q + i) == SectOf(g, chain, q) + i
  {
    hide SectOf, Clust2Sect, Proper;
    StepInside(g.csize, q, i);
    SectIs(g, chain, q);
    SectIs(g, chain, q + i);
  }

  /** The cc sectors from the q-th on, all in one cluster, are consecutive on the disk, and no other sector of
      the file is among them. */
  lemma RunOfSectors(g: Geometry, sectors: nat, chain: seq<nat>, q: nat, cc: nat, p: nat)
    requires g.DataOk(sectors) && Proper(g, chain) && q / g.csize < |chain| && q % g.csize + cc <= g.csize
    ensures q <= p < q + cc ==> p / g.csize == q / g.csize && SectOf(g, chain, p) == SectOf(g, chain, q) + (p - q)
    ensures p / g.csize < |chain| && !(q <= p < q + cc) ==>
      SectOf(g, chain, p) < SectOf(g, chain, q) || SectOf(g, chain, q) + cc <= SectOf(g, chain, p)
  {
    hide SectOf, Clust2Sect, Proper;
    if q <= p < q + cc {
      RunInside(g, chain, q, p - q);
    } else if p / g.csize < |chain| && SectOf(g, chain, q) <= SectOf(g, chain, p) < SectOf(g, chain, q) + cc {
      var i := SectOf(g, chain, p) - SectOf(g, chain, q);
      RunInside(g, chain, q, i);
      SectInjective(g, sectors, chain, p, chain, q + i);
    }
  }

  /** A byte after whole sectors of one cluster were written. */
  lemma DirectByte(g: Geometry, disk: seq<byte>, chain: seq<nat>, q: nat, w: seq<byte>, j: nat)
    requires g.DataOk(|disk| / 512) && Proper(g, chain)
    requires |w| % 512 == 0 && q / g.csize < |chain| && q % g.csize + |w| / 512 <= g.csize
    requires 512 * SectOf(g, chain, q) + |w| <= |disk|
    requires j / 512 / g.csize < |chain| || 512 * q <= j < 512 * q + |w|
    ensures
      var s := SectOf(g, chain, j / 512);
      && 512 * s + 512 <= |disk|
      && Splice(disk, 512 * SectOf(g, chain, q), w)[512 * s + j % 512] ==
         if 512 * q <= j < 512 * q + |w| then w[j - 512 * q] else disk[512 * s + j % 512]
  {
    RunOfSectors(g, |disk| / 512, chain, q, |w| / 512, j / 512);
    SectRange(g, |disk| / 512, chain, j / 512);
    hide SectOf, Proper;
    var p, x := j / 512, j % 512;
    assert j == 512 * p + x && |w| == 512 * (|w| / 512);
  }

  /** Writing whole sectors inside one cluster, past a clean buffer, replaces just these bytes. */
  lemma DirectWrite(g: Geometry, disk: seq<byte>, chain: seq<nat>, dsect: nat, buf: seq<byte>, b2: seq<byte>,
                    n: nat, q: nat, w: seq<byte>)
    requires g.DataOk(|disk| / 512) && Proper(g, chain) && |buf| == |b2| == 512
    requires Room(g, chain, n) && 512 * q <= n
    requires |w| % 512 == 0 && q / g.csize < |chain| && q % g.csize + |w| / 512 <= g.csize
    requires 512 * SectOf(g, chain, q) + |w| <= |disk|
    ensures
      var m := if n < 512 * q + |w| then 512 * q + |w| else n;
      FileBytes(g, Splice(disk, 512 * SectOf(g, chain, q), w), chain, false, dsect, b2, m) ==
      Patch(FileBytes(g, disk, chain, false, dsect, buf, n), 512 * q, w)
  {
    hide SectOf, Proper, Splice, Room;
    var after := Splice(disk, 512 * SectOf(g, chain, q), w);
    forall j: nat | j < n || 512 * q <= j < 512 * q + |w|
      ensures FileByte(g, after, chain, false, dsect, b2, j) ==
              if 512 * q <= j < 512 * q + |w| then w[j - 512 * q] else FileByte(g, disk, chain, false, dsect, buf, j)
    {
      if j < n {
        RoomFor(g, chain, n, j);
      }
      DirectByte(g, disk, chain, q, w, j);
    }
  }

  /** Writing into the buffer, which holds the sector of offset p as far as the file reaches, replaces just these
      bytes. */
  lemma BufferedWrite(g: Geometry, disk: seq<byte>, chain: seq<nat>, dirty: bool, dsect: nat, buf: seq<byte>,
                      n: nat, p: nat, w: seq<byte>)
    requires g.DataOk(|disk| / 512) && Proper(g, chain) && |buf| == 512 && Room(g, chain, n) && p <= n
    requires p / 512 / g.csize < |chain| && p % 512 + |w| <= 512 && dsect == SectOf(g, chain, p / 512)
    requires forall j: nat :: j < n && j / 512 == p / 512 ==>
      FileByte(g, disk, chain, dirty, dsect, buf, j) == buf[j % 512]
    ensures
      var m := if n < p + |w| then p + |w| else n;
      FileBytes(g, disk, chain, true, dsect, Splice(buf, p % 512, w), m) ==
      Patch(FileBytes(g, disk, chain, dirty, dsect, buf, n), p, w)
  {
    hide SectOf, Proper, Room;
    var b2 := Splice(buf, p % 512, w);
    forall j: nat | j < n || p <= j < p + |w|
      ensures FileByte(g, disk, chain, true, dsect, b2, j) ==
              if p <= j < p + |w| then w[j - p] else FileByte(g, disk, chain, dirty, dsect, buf, j)
    {
      if j / 512 != p / 512 {
        RoomFor(g, chain, n, j);
        if SectOf(g, chain, j / 512) == dsect {
          SectInjective(g, |disk| / 512, chain, j / 512, chain, p / 512);
        }
      }
    }
  }

  /** Is sector s one of the FAT copies? */
  predicate InFats(g: Geometry, s: nat) {
    g.fatbase <= s < g.fatbase + g.FatArea()
  }

  /** Two disks agree outside the FAT copies. */
  ghost predicate SameRest(g: Geometry, a: seq<byte>, b: seq<byte>) {
    |a| == |b| && forall k :: 0 <= k < |a| && a[k] != b[k] ==> InFats(g, k / 512)
  }

  lemma RestSame(g: Geometry, a: seq<byte>)
    requires g.Ok(|a| / 512)
    ensures SameRest(g, a, a)
  {
  }

  /** The clusters that hold the first p bytes. */
  function Holding(g: Geometry, chain: seq<nat>, p: nat): (r: seq<nat>)
    ensures r <= chain
    ensures p == 0 ==> r == []
  {
    if p == 0 || Index(g, (p - 1) / 512) >= |chain| then [] else chain[..Index(g, (p - 1) / 512) + 1]
  }

  lemma HoldingIs(g: Geometry, chain: seq<nat>, p: nat, c: nat)
    requires Size(g.csize) && p > 0 && IsCluster(g, chain, (p - 1) / 512, c)
    ensures
      var (k, kept) := (Index(g, (p - 1) / 512), Holding(g, chain, p));
      && k < |chain| && c == chain[k] && kept == chain[..k + 1] && Room(g, kept, p)
      && IsCluster(g, kept, (p - 1) / 512, c)
      && (p % 512 != 0 ==> SectOf(g, kept, p / 512) == SectOf(g, chain, p / 512))
  {
  }

  lemma DataIsNoRecord(g: Geometry, sectors: nat, s: nat)
    requires g.Ok(sectors) && g.database <= s
    ensures !InFats(g, s) && !InRecord(g, s)
  {
  }

  lemma NoSect(g: Geometry, s: nat)
    ensures !HasSect(g, [], s)
  {
  }

  lemma RestIsSame(g: Geometry, a: seq<byte>, b: seq<byte>)
    requires g.Ok(|a| / 512) && g.Ok(|b| / 512) && Rest(g, a) == Rest(g, b)
    ensures |a| == |b| && SameRest(g, a, b)
  {
    var start, cut := 512 * g.fatbase, 512 * (g.fatbase + g.FatArea());
    assert a[..start] == Rest(g, a)[..start] && b[..start] == Rest(g, b)[..start];
    assert a[cut..] == Rest(g, a)[start..] && b[cut..] == Rest(g, b)[start..];
    forall k | 0 <= k < |a| && !InFats(g, k / 512) ensures a[k] == b[k] {
      if k / 512 < g.fatbase {
        assert a[..start][k] == b[..start][k];
      } else {
        assert a[cut..][k - cut] == b[cut..][k - cut];
      }
    }
  }

  lemma SameSector(g: Geometry, a: seq<byte>, b: seq<byte>, s: nat)
    requires SameRest(g, a, b) && s < |a| / 512 && !InFats(g, s)
    ensures Sector(a, s) == Sector(b, s)
    ensures forall i :: 512 * s <= i < 512 * s + 512 ==> a[i] == b[i]
  {
    forall i | 512 * s <= i < 512 * s + 512 ensures a[i] == b[i] {
      assert i / 512 == s;
    }
  }

  lemma SectPrefix(g: Geometry, chain: seq<nat>, longer: seq<nat>, q: nat)
    requires g.csize > 0 && chain <= longer && q / g.csize < |chain|
    ensures q / g.csize < |longer| && SectOf(g, longer, q) == SectOf(g, chain, q)
  {
  }

  /** A longer chain and a disk with the same data give the same bytes where the shorter chain had room. */
  lemma GrowSame(g: Geometry, a: seq<byte>, b: seq<byte>, chain: seq<nat>, longer: seq<nat>,
                 dirty: bool, dsect: nat, buf: seq<byte>, n: nat)
    requires g.DataOk(|a| / 512) && g.Ok(|a| / 512) && Proper(g, longer) && |buf| == 512 && Room(g, chain, n)
    requires SameRest(g, a, b) && |a| == |b| && chain <= longer
    ensures FileBytes(g, b, longer, dirty, dsect, buf, n) == FileBytes(g, a, chain, dirty, dsect, buf, n)
  {
    hide SectOf, Clust2Sect, Proper, SameRest, Room;
    forall j: nat | j < n
      ensures FileByte(g, b, longer, dirty, dsect, buf, j) == FileByte(g, a, chain, dirty, dsect, buf, j)
    {
      RoomFor(g, chain, n, j);
      SectPrefix(g, chain, longer, j / 512);
      SectRange(g, |a| / 512, longer, j / 512);
      SameSector(g, a, b, SectOf(g, longer, j / 512));
    }
  }

  /** Two disks agree outside the FAT copies and the sectors of the file. */
  ghost predicate SameElsewhere(g: Geometry, chain: seq<nat>, a: seq<byte>, b: seq<byte>) {
    |a| == |b| && forall k :: 0 <= k < |a| && a[k] != b[k] ==> InFats(g, k / 512) || HasSect(g, chain, k / 512)
  }

  /** Is sector s part of the record of the volume: its FAT copies, and on FAT32 its FSInfo sector? */
  predicate InRecord(g: Geometry, s: nat) {
    InFats(g, s) || (g.subType.Fat32? && s == g.fsiSector)
  }

  /** Two disks agree outside the record of the volume, the sectors of the file and one more. */
  ghost predicate SameBesides(g: Geometry, chain: seq<nat>, sect: nat, a: seq<byte>, b: seq<byte>) {
    && |a| == |b|
    && forall s: nat :: s < |a| / 512 && s != sect && !InRecord(g, s) && !HasSect(g, chain, s) ==>
      Sector(b, s) == Sector(a, s)
  }

  lemma ElsewhereBesides(g: Geometry, chain: seq<nat>, sect: nat, a: seq<byte>, b: seq<byte>)
    requires SameElsewhere(g, chain, a, b)
    ensures SameBesides(g, chain, sect, a, b) && |a| == |b|
  {
    hide HasSect;
    forall s: nat | s < |a| / 512 && s != sect && !InRecord(g, s) && !HasSect(g, chain, s)
      ensures Sector(b, s) == Sector(a, s)
    {
      forall k | 512 * s <= k < 512 * s + 512 ensures a[k] == b[k] {
        assert k / 512 == s;
      }
    }
  }

  lemma BesidesTwice(g: Geometry, chain: seq<nat>, sect: nat, d0: seq<byte>, d1: seq<byte>, d2: seq<byte>)
    requires SameBesides(g, chain, sect, d0, d1) && SameBesides(g, chain, sect, d1, d2)
    ensures SameBesides(g, chain, sect, d0, d2)
  {
    hide HasSect, Sector;
  }

  lemma ElsewhereTwice(g: Geometry, c1: seq<nat>, c2: seq<nat>, d0: seq<byte>, d1: seq<byte>, d2: seq<byte>)
    requires Size(g.csize) && c1 <= c2 && SameElsewhere(g, c1, d0, d1) && SameElsewhere(g, c2, d1, d2)
    ensures SameElsewhere(g, c2, d0, d2)
  {
    hide SectOf;
    forall k | 0 <= k < |d0| && d0[k] != d2[k] ensures InFats(g, k / 512) || HasSect(g, c2, k / 512) {
      if d0[k] != d1[k] && !InFats(g, k / 512) {
        var q: nat :| q / g.csize < |c1| && SectOf(g, c1, q) == k / 512;
        SectPrefix(g, c1, c2, q);
      }
    }
  }

  lemma RestElsewhere(g: Geometry, chain: seq<nat>, a: seq<byte>, b: seq<byte>)
    requires SameRest(g, a, b)
    ensures SameElsewhere(g, chain, a, b)
  {
  }

  /** The sectors of a run belong to the file. */
  lemma RunHasSects(g: Geometry, sectors: nat, chain: seq<nat>, q: nat, cc: nat)
    requires g.DataOk(sectors) && Proper(g, chain) && q / g.csize < |chain| && q % g.csize + cc <= g.csize
    ensures forall s :: SectOf(g, chain, q) <= s < SectOf(g, chain, q) + cc ==> HasSect(g, chain, s)
    ensures g.database <= SectOf(g, chain, q) && SectOf(g, chain, q) + cc <= sectors
  {
    hide Proper, SectOf;
    SectRange(g, sectors, chain, q);
    forall s | SectOf(g, chain, q) <= s < SectOf(g, chain, q) + cc ensures HasSect(g, chain, s) {
      var i := s - SectOf(g, chain, q);
      RunInside(g, chain, q, i);
      assert SectOf(g, chain, q + i) == s;
    }
    if cc > 0 {
      RunInside(g, chain, q, cc - 1);
      SectRange(g, sectors, chain, q + cc - 1);
    }
  }

  lemma SectsInData(g: Geometry, sectors: nat, chain: seq<nat>)
    requires g.DataOk(sectors) && Proper(g, chain)
    ensures forall s: nat :: HasSect(g, chain, s) ==> g.database <= s < sectors
  {
    hide SectOf, Proper;
    forall s: nat | HasSect(g, chain, s) ensures g.database <= s < sectors {
      var q: nat :| q / g.csize < |chain| && SectOf(g, chain, q) == s;
      SectRange(g, sectors, chain, q);
    }
  }

  lemma SpliceElsewhere(g: Geometry, disk: seq<byte>, chain: seq<nat>, s: nat, d: seq<byte>)
    requires 512 * s + |d| <= |disk|
    requires forall i: nat :: s <= i && 512 * i < 512 * s + |d| ==> HasSect(g, chain, i)
    ensures SameElsewhere(g, chain, disk, Splice(disk, 512 * s, d))
  {
  }

  /** The buffer holds the bytes of the file in the sector of offset p when it is dirty with that sector, equals it,
      or the file does not reach into the sector. */
  lemma BufferCurrent(g: Geometry, disk: seq<byte>, chain: seq<nat>, dirty: bool, dsect: nat, buf: seq<byte>, n: nat,
                      p: nat)
    requires |buf| == 512 && dsect == SectOf(g, chain, p / 512) && dsect < |disk| / 512
    requires dirty || buf == Sector(disk, dsect) || (p % 512 == 0 && n <= p)
    ensures forall j: nat :: j < n && j / 512 == p / 512 ==>
      FileByte(g, disk, chain, dirty, dsect, buf, j) == buf[j % 512]
  {
  }

  lemma InSector(p: nat, i: nat)
    requires p % 512 + i < 512
    ensures (p + i) / 512 == p / 512 && (p + i) % 512 == p % 512 + i
  {
  }

  /** A buffer that is dirty with the sector of offset p, or equals it, holds the bytes of the file there. */
  lemma BufferHolds(g: Geometry, disk: seq<byte>, chain: seq<nat>, dirty: bool, dsect: nat, buf: seq<byte>,
                    n: nat, p: nat, cnt: nat)
    requires |buf| == 512 && dsect == SectOf(g, chain, p / 512) && dsect < |disk| / 512
    requires dirty || buf == Sector(disk, dsect)
    requires p % 512 + cnt <= 512 && p + cnt <= n
    ensures buf[p % 512..p % 512 + cnt] == FileBytes(g, disk, chain, dirty, dsect, buf, n)[p..p + cnt]
  {
    BufferCurrent(g, disk, chain, dirty, dsect, buf, n, p);
    hide SectOf, FileByte;
    var a, b := buf[p % 512..p % 512 + cnt], FileBytes(g, disk, chain, dirty, dsect, buf, n)[p..p + cnt];
    forall i | 0 <= i < cnt ensures a[i] == b[i] {
      InSector(p, i);
    }
  }

  /** A clean buffer does not matter. */
  lemma CleanBuffer(g: Geometry, disk: seq<byte>, chain: seq<nat>, dirty: bool, s: nat, b: seq<byte>,
                    t: nat, c: seq<byte>, n: nat)
    requires |b| == |c| == 512 && !dirty
    ensures FileBytes(g, disk, chain, dirty, s, b, n) == FileBytes(g, disk, chain, dirty, t, c, n)
  {
  }

  lemma ReadByte(g: Geometry, disk: seq<byte>, chain: seq<nat>, dirty: bool, dsect: nat, buf: seq<byte>,
                 q: nat, cc: nat, k: nat, o: nat)
    requires g.DataOk(|disk| / 512) && Proper(g, chain) && |buf| == 512 && InRun(g, chain, q, cc) && k < cc && o < 512
    requires 512 * (SectOf(g, chain, q) + cc) <= |disk|
    ensures
      var s := SectOf(g, chain, q);
      Overlaid(disk[512 * s..512 * (s + cc)], s, dirty, dsect, buf)[512 * k + o] ==
      FileByte(g, disk, chain, dirty, dsect, buf, 512 * (q + k) + o)
  {
    hide SectOf, Proper, Geometry.DataOk;
    RunOfSectors(g, |disk| / 512, chain, q, cc, q + k);
    ByteOfSector(q + k, o);
  }

  lemma ByteOfSector(q: nat, o: nat)
    requires o < 512
    ensures (512 * q + o) / 512 == q && (512 * q + o) % 512 == o
  {
  }

  /** Reading whole sectors of one cluster from the disk, with the dirty buffer laid over, gives the file's bytes. */
  lemma ReadRun(g: Geometry, disk: seq<byte>, chain: seq<nat>, dirty: bool, dsect: nat, buf: seq<byte>,
                n: nat, q: nat, cc: nat)
    requires g.DataOk(|disk| / 512) && Proper(g, chain) && |buf| == 512
    requires InRun(g, chain, q, cc) && 512 * (q + cc) <= n
    requires 512 * (SectOf(g, chain, q) + cc) <= |disk|
    ensures
      var s := SectOf(g, chain, q);
      Overlaid(disk[512 * s..512 * (s + cc)], s, dirty, dsect, buf) ==
      FileBytes(g, disk, chain, dirty, dsect, buf, n)[512 * q..512 * (q + cc)]
  {
    hide SectOf, Proper, Overlaid, FileByte, Geometry.DataOk;
    var s := SectOf(g, chain, q);
    var d := Overlaid(disk[512 * s..512 * (s + cc)], s, dirty, dsect, buf);
    var all := FileBytes(g, disk, chain, dirty, dsect, buf, n);
    forall i | 0 <= i < 512 * cc ensures d[i] == all[512 * q + i] {
      ReadByte(g, disk, chain, dirty, dsect, buf, q, cc, i / 512, i % 512);
    }
  }

  /** Sectors from s on, with the buffered sector replaced if it is dirty and among them. */
  function Overlaid(d: seq<byte>, s: nat, dirty: bool, dsect: nat, buf: seq<byte>): (r: seq<byte>)
    requires |buf| == 512
    ensures |r| == |d|
  {
    if dirty && s <= dsect && 512 * (dsect - s) + 512 <= |d| then Splice(d, 512 * (dsect - s), buf) else d
  }
}
