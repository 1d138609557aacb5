/** The 32-byte directory entry. */
module FatEntry {
  import opened Bytes
  import opened Common

  const ATTR := 11       // attributes
  const CLUSTER_HI := 20 // first cluster, high word
  const WRITE_TIME := 22 // time and date of the last write
  const CLUSTER_LO := 26 // first cluster, low word
  const SIZE := 28       // size in bytes

  function LdClust(e: seq<byte>): nat
    requires |e| == 32
  {
    0x1_0000 * LdWord(e, CLUSTER_HI) + LdWord(e, CLUSTER_LO)
  }

  function StClust(e: seq<byte>, c: nat): (r: seq<byte>)
    requires |e| == 32
    ensures |r| == 32
  {
    StWord(StWord(e, CLUSTER_LO, c), CLUSTER_HI, c / 0x1_0000)
  }

  /** The attribute byte with the archive bit set. */
  function Archived(a: byte): byte {
    if a / 0x20 % 2 == 0 then a + 0x20 else a
  }

  /** The entry of a file that was written. */
  function Touched(e: seq<byte>, size: nat, clust: nat, time: dword): (r: seq<byte>)
    requires |e| == 32
    ensures |r| == 32
  {
    StDword(StClust(StDword(e[ATTR := Archived(e[ATTR])], SIZE, size), clust), WRITE_TIME, time)
  }

  lemma StClustReads(e: seq<byte>, c: dword)
    requires |e| == 32
    ensures LdClust(StClust(e, c)) == c
    ensures LdDword(StClust(e, c), SIZE) == LdDword(e, SIZE)
    ensures forall i :: 0 <= i < CLUSTER_HI ==> StClust(e, c)[i] == e[i]
  {
    hide StWord;
    var lo := StWord(e, CLUSTER_LO, c);
    var r := StWord(lo, CLUSTER_HI, c / 0x1_0000);
    assert LdWord(r, CLUSTER_LO) == LdWord(lo, CLUSTER_LO);
    assert c == 0x1_0000 * (c / 0x1_0000) + c % 0x1_0000;
  }

  /** Entry r is entry e with these three fields, and bit 5 of byte 11 set; name, attributes and the times of creation
      and last access are those of e. */
  ghost predicate Rewritten(e: seq<byte>, r: seq<byte>, size: nat, clust: nat, time: nat) {
    && |e| == |r| == 32
    && 0x1_0000 * LdWord(r, 20) + LdWord(r, 26) == clust && LdDword(r, 22) == time && LdDword(r, 28) == size
    && (forall k :: 0 <= k < 20 && k != 11 ==> r[k] == e[k])
    && r[11] as int == if e[11] as int / 32 % 2 == 1 then e[11] as int else e[11] as int + 32
  }

  /** From disk d0 to d1 the entry at offset off of sector sect is rewritten, and the rest of its sector is kept. */
  ghost predicate RewrittenAt(d0: seq<byte>, d1: seq<byte>, sect: nat, off: nat, size: nat, clust: nat, time: nat) {
    var a, z := 512 * sect + off, 512 * sect + 512;
    && off + 32 <= 512 && z <= |d0| == |d1|
    && Rewritten(d0[a..a + 32], d1[a..a + 32], size, clust, time)
    && d1[512 * sect..a] == d0[512 * sect..a] && d1[a + 32..z] == d0[a + 32..z]
  }

  /** First cluster, size and time read back, the archive bit is set, and everything else stays. */
  lemma TouchedReads(e: seq<byte>, size: dword, clust: dword, time: dword)
    requires |e| == 32
    ensures
      var r := Touched(e, size, clust, time);
      && LdClust(r) == clust && LdDword(r, SIZE) == size && LdDword(r, WRITE_TIME) == time
      && r[ATTR] == Archived(e[ATTR]) && forall k :: 0 <= k < CLUSTER_HI && k != ATTR ==> r[k] == e[k]
    ensures Rewritten(e, Touched(e, size, clust, time), size, clust, time)
  {
    hide StDword, StClust, LdDword;
    var a := StDword(e[ATTR := Archived(e[ATTR])], SIZE, size);
    var b := StClust(a, clust);
    var r := StDword(b, WRITE_TIME, time);
    StClustReads(a, clust);
    StElsewhere(b, WRITE_TIME, time, SIZE);
    assert LdWord(r, CLUSTER_LO) == LdWord(b, CLUSTER_LO) && LdWord(r, CLUSTER_HI) == LdWord(b, CLUSTER_HI);
  }
}
