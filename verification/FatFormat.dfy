/** f_mkfs writing a medium, and mounting it again from its bytes. */
module FatFormat {
  import opened Bytes
  import opened Common
  import opened FatBoot
  import opened FatChains
  import opened FatCodec
  import FatDir
  import opened FatMkfs
  import opened FatVolume

  function Zero(): (r: seq<byte>)
    ensures |r| == 512
  {
    seq(512, _ => 0)
  }

  /** The partition table of a disk with one partition. */
  function PartitionTable(p: Plan): (r: seq<byte>)
    ensures |r| == 512
  {
    var nDisk := p.bVol + p.nVol;
    var s0 := StDword(Zero(), 446, 0x0001_0180);
    var cyl := nDisk / 63 / 255;
    var s1 :=
      if nDisk < 63 * 255 * 1024 then s0[453 := cyl % 0x100][452 := cyl / 4 % 0x100 / 64 * 64 + 63]
        else StWord(s0, 452, 0xFFFF);
    var s2 := s1[451 := 254];
    var s3 := s2[450 := if p.subType.Fat32? then 0x0C else if p.nVol < 0x1_0000 then 0x04 else 0x06];
    var s4 := StDword(s3, 454, 63);
    var s5 := StDword(s4, 458, p.nVol);
    StWord(s5, 510, 0xAA55)
  }

  /** The first sector of the FAT: the reserved entries, and on FAT32 the end mark of the root directory. */
  function FirstFatSector(t: SubType, md: byte): (r: seq<byte>)
    ensures |r| == 512
  {
    var s := StDword(Zero(), 0, md as int + if t.Fat12? then 0x00FF_FF00 else 0xFFFF_FF00);
    if t.Fat32? then StDword(StDword(s, 4, 0xFFFF_FFFF), 8, 0x0FFF_FFFF) else s
  }

  /** Sectors that f_mkfs clears behind the first one of the FAT: the rest of the FAT, and the root directory. */
  function ClearedSectors(p: Plan): nat {
    (if p.nFat > 0 then p.nFat - 1 else 0) + if p.subType.Fat32? then p.au else p.nDir
  }

  /** Sector i of the disk when f_mkfs has cleared `done` sectors; `was` is what it held before. */
  function SectorBy(p: Plan, md: byte, time: dword, done: nat, i: nat, was: seq<byte>): seq<byte> {
    var bFat := p.bVol + p.nRsv;
    if i == p.bVol || (p.subType.Fat32? && i == p.bVol + 6) then BootRecord(p, md, time)
    else if i == 0 then PartitionTable(p)
    else if i == bFat then FirstFatSector(p.subType, md)
    else if bFat < i <= bFat + done then Zero()
    else was
  }

  /** Sector i of the disk after f_mkfs. */
  function SectorMade(p: Plan, md: byte, time: dword, i: nat, was: seq<byte>): seq<byte> {
    if p.subType.Fat32? && (i == p.bVol + 1 || i == p.bVol + 7) then FsInfo((p.clusters - 1) % W, 0xFFFF_FFFF)
    else SectorBy(p, md, time, ClearedSectors(p), i, was)
  }

  lemma SectorOfSplice(disk: seq<byte>, s: nat, d: seq<byte>, i: nat)
    requires |d| == 512 && s < |disk| / 512 && i < |disk| / 512
    ensures Sector(Splice(disk, 512 * s, d), i) == if i == s then d else Sector(disk, i)
  {
  }

  /** disk_write of one sector. Writing past the medium is an error. */
  method WriteSector(disk: seq<byte>, s: nat, d: seq<byte>) returns (ok: bool, r: seq<byte>)
    requires |d| == 512
    ensures ok <==> s < |disk| / 512
    ensures |r| == |disk| && (!ok ==> r == disk)
    ensures ok ==> forall i: nat :: i < |disk| / 512 ==> Sector(r, i) == if i == s then d else Sector(disk, i)
  {
    ok := s < |disk| / 512;
    if ok {
      r := Splice(disk, 512 * s, d);
      forall i: nat | i < |disk| / 512 ensures Sector(r, i) == if i == s then d else Sector(disk, i) {
        SectorOfSplice(disk, s, d, i);
      }
    } else {
      r := disk;
    }
  }

  /** The part of a plan that the writes depend on. */
  predicate Apart(p: Plan) {
    p.nRsv > 0 && p.bVol <= 63 && (p.subType.Fat32? ==> p.nRsv >= 32 && p.au > 0) && (!p.subType.Fat32? ==> p.nDir > 0)
  }

  /** Writes the partition table, the boot record with its backup, and the first sector of the FAT. */
  method WriteHead(disk: seq<byte>, p: Plan, sfd: bool, md: byte, time: dword) returns (ok: bool, r: seq<byte>)
    requires Apart(p) && p.bVol == if sfd then 0 else 63
    ensures |r| == |disk|
    ensures ok <==> p.bVol + p.nRsv < |disk| / 512
    ensures forall i: nat :: i < |disk| / 512 ==> Sector(r, i) == SectorBy(p, md, time, 0, i, Sector(disk, i))
  {
    hide Sector, BootRecord, PartitionTable, FirstFatSector, Zero;
    r := disk;
    if !sfd {
      ok, r := WriteSector(r, 0, PartitionTable(p));
      if !ok {
        return;
      }
    }
    ok, r := WriteSector(r, p.bVol, BootRecord(p, md, time));
    if !ok {
      return;
    }
    if p.subType.Fat32? {
      var backup;
      backup, r := WriteSector(r, p.bVol + 6, BootRecord(p, md, time));
    }
    ok, r := WriteSector(r, p.bVol + p.nRsv, FirstFatSector(p.subType, md));
  }

  /** Clears `count` sectors from wsect on. */
  method ClearSectors(disk: seq<byte>, wsect: nat, count: nat) returns (ok: bool, r: seq<byte>)
    ensures |r| == |disk|
    ensures ok <==> count == 0 || wsect + count <= |disk| / 512
    ensures forall i: nat :: i < |disk| / 512 ==>
      Sector(r, i) == if wsect <= i < wsect + count then Zero() else Sector(disk, i)
  {
    hide Sector, Zero;
    r, ok := disk, true;
    var i := 0;
    while i < count
      invariant i <= count && |r| == |disk| && ok && (i > 0 ==> wsect + i <= |disk| / 512)
      invariant forall j: nat :: j < |disk| / 512 ==>
        Sector(r, j) == if wsect <= j < wsect + i then Zero() else Sector(disk, j)
    {
      ok, r := WriteSector(r, wsect + i, Zero());
      if !ok {
        return;
      }
      i := i + 1;
    }
  }

  /** Writes the FAT area, the root directory, and on FAT32 the free-cluster information. */
  method WriteAreas(disk: seq<byte>, p: Plan) returns (ok: bool, r: seq<byte>)
    requires Apart(p) && p.bVol + p.nRsv < |disk| / 512
    ensures |r| == |disk|
    ensures ok <==> p.bVol + p.nRsv + ClearedSectors(p) < |disk| / 512
    ensures forall i: nat :: i < |disk| / 512 ==>
      Sector(r, i) == if p.bVol + p.nRsv < i <= p.bVol + p.nRsv + ClearedSectors(p) then Zero() else Sector(disk, i)
  {
    hide Sector, Zero;
    var rest := if p.nFat > 0 then p.nFat - 1 else 0;
    ok, r := ClearSectors(disk, p.bVol + p.nRsv + 1, rest);
    if !ok {
      return;
    }
    ok, r := ClearSectors(r, p.bVol + p.nRsv + 1 + rest, if p.subType.Fat32? then p.au else p.nDir);
  }

  /** f_mkfs. Fails when it finds no plan, or when a write goes past the medium; what lies on the medium is written all
      the same, but for the free-cluster information. */
  method MkFs(disk: seq<byte>, sfd: bool, au: dword, block: dword, time: dword) returns (ok: bool, r: seq<byte>)
    requires |disk| / 512 < W
    ensures |r| == |disk|
    ensures PlanFor(|disk| / 512, sfd, au, block) == None ==> !ok && r == disk
    ensures PlanFor(|disk| / 512, sfd, au, block).Some? ==>
      var p := PlanFor(|disk| / 512, sfd, au, block).value;
      && (ok <==> p.bVol + p.nRsv + ClearedSectors(p) < |disk| / 512)
      && (ok ==> Made(p, sfd, time, disk, r))
      && (!ok ==> forall i: nat :: i < |disk| / 512 ==>
            Sector(r, i) == SectorBy(p, if sfd then 0xF0 else 0xF8, time, ClearedSectors(p), i, Sector(disk, i)))
  {
    hide PlanFor, Sector, BootRecord, PartitionTable, FirstFatSector, FsInfo, Zero, ClearedSectors;
    r := disk;
    var plan := PlanFor(|disk| / 512, sfd, au, block);
    if plan == None {
      return false, r;
    }
    var p := plan.value;
    PlannedApart(|disk| / 512, sfd, au, block);
    ok, r := WriteHead(r, p, sfd, if sfd then 0xF0 else 0xF8, time);
    if !ok {
      return;
    }
    ok, r := WriteAreas(r, p);
    if !ok {
      return;
    }
    if p.subType.Fat32? {
      var info, done := FsInfo((p.clusters - 1) % W, 0xFFFF_FFFF), false;
      done, r := WriteSector(r, p.bVol + 1, info);
      done, r := WriteSector(r, p.bVol + 7, info);
    }
  }

  /** Every sector of the disk is as f_mkfs leaves it. */
  ghost predicate Made(p: Plan, sfd: bool, time: dword, disk: seq<byte>, r: seq<byte>)
    requires |r| == |disk|
  {
    forall i: nat :: i < |disk| / 512 ==>
      Sector(r, i) == SectorMade(p, if sfd then 0xF0 else 0xF8, time, i, Sector(disk, i))
  }

  lemma PlannedApart(nDisk: dword, sfd: bool, au: dword, block: dword)
    requires PlanFor(nDisk, sfd, au, block).Some?
    ensures var p := PlanFor(nDisk, sfd, au, block).value; Apart(p) && p.bVol == if sfd then 0 else 63
  {
  }

  // Mounting the medium.

  /** Where the volume starts: at sector 0 if that is a FAT boot record, else at the first partition. */
  function FindVolume(disk: seq<byte>): (b: Option<nat>)
    ensures b.Some? ==> b.value < |disk| / 512
  {
    if |disk| < 512 then None
    else
      var s := Sector(disk, 0);
      if LdWord(s, 510) != 0xAA55 then None
      else if HasFat(s) then Some(0)
      else if s[450] == 0 then None
      else
        var b := LdDword(s, 454);
        if b < |disk| / 512 && IsBootRecord(Sector(disk, b)) then Some(b) else None
  }

  /** The volume and its free-cluster information, read from the FSInfo sector if that has its signatures. */
  datatype Mounted = Mounted(g: Geometry, free: dword, last: dword)

  function Mount(disk: seq<byte>): Option<Mounted> {
    var b := FindVolume(disk);
    if b == None then None
    else
      var g := Parse(Sector(disk, b.value), b.value);
      if g == None then None
      else if g.value.subType.Fat32? && g.value.fsiSector < |disk| / 512 &&
        IsFsInfo(Sector(disk, g.value.fsiSector)) then
        var s := Sector(disk, g.value.fsiSector);
        Some(Mounted(g.value, LdDword(s, 488), LdDword(s, 492)))
      else
        Some(Mounted(g.value, UNKNOWN, 0))
  }

  predicate IsFsInfo(s: seq<byte>)
    requires |s| == 512
  {
    LdWord(s, 510) == 0xAA55 && LdDword(s, 0) == 0x4161_5252 && LdDword(s, 484) == 0x6141_7272
  }

  /** The partition table leads to sector 63, and is no boot record itself. Its one entry has the size of the volume and
      the type that goes with the sub-type and the size. */
  lemma PartitionReads(p: Plan)
    ensures
      var s := PartitionTable(p);
      && LdWord(s, 510) == 0xAA55 && !HasFat(s) && LdDword(s, 454) == 63 && LdDword(s, 458) == p.nVol % W
      && s[450] as int == (if p.subType.Fat32? then 12 else if p.nVol < 65536 then 4 else 6)
      && forall i :: 0 <= i < 446 || 462 <= i < 510 ==> s[i] == 0
  {
    var s := PartitionTable(p);
    assert forall i :: 0 <= i < 446 ==> s[i] == 0;
    assert LdDword(s, 54) == 0 && LdDword(s, 82) == 0;
  }

  /** The same entry in cylinders, heads and sectors: active, from cylinder 0, head 1, sector 1 to head 254, sector 63 of
      the cylinder that the disk ends with, with its two upper bits in the byte of the sector; all ones if it has 1024. */
  lemma PartitionEnds(p: Plan)
    ensures
      var s, cyl := PartitionTable(p), (p.bVol + p.nVol) / 63 / 255;
      && s[446] as int == 0x80 && s[447] as int == 1 && s[448] as int == 1 && s[449] as int == 0
      && s[451] as int == 254
      && (if cyl < 1024 then s[453] as int == cyl % 256 && s[452] as int == 64 * (cyl / 256) + 63
          else s[452] as int == s[453] as int == 0xFF)
  {
    Cylinder(p.bVol + p.nVol);
    hide StDword;
    FirstBytes();
  }

  lemma Cylinder(n: nat)
    ensures n < 63 * 255 * 1024 <==> n / 63 / 255 < 1024
    ensures
      var cyl := n / 63 / 255;
      cyl < 1024 ==> cyl / 4 % 0x100 / 64 * 64 + 63 == 64 * (cyl / 256) + 63 < 256
  {
  }

  lemma FirstBytes()
    ensures
      var s := StDword(Zero(), 446, 0x0001_0180);
      s[446] as int == 0x80 && s[447] as int == 1 && s[448] as int == 1 && s[449] as int == 0
  {
  }

  /** On FAT32 the backup of the boot record is where the record says, and the FSInfo sector, of which there is a copy
      behind that. */
  lemma BackupIsThere(p: Plan, sfd: bool, time: dword, disk: seq<byte>, r: seq<byte>)
    requires Planned(p) && Apart(p) && p.subType.Fat32? && |r| == |disk| && p.bVol + 7 < |disk| / 512
    requires Made(p, sfd, time, disk, r)
    ensures
      var s := Sector(r, p.bVol);
      && p.bVol + LdWord(s, 50) + 1 < |r| / 512 && p.bVol + LdWord(s, 48) < |r| / 512
      && Sector(r, p.bVol + LdWord(s, 50)) == s
      && IsFsInfo(Sector(r, p.bVol + LdWord(s, 48)))
      && Sector(r, p.bVol + LdWord(s, 50) + 1) == Sector(r, p.bVol + LdWord(s, 48))
  {
    hide FsInfo, BootRecord, LdDword, LdWord, IsFsInfo, Sector, SectorMade, Planned, Apart;
    var md := if sfd then 0xF0 else 0xF8;
    CopiesMade(p, md, time, Sector(disk, p.bVol), Sector(disk, p.bVol + 6));
    FatSizes(p);
    RecordFields(p, md, time);
    RecordRest(p, md, time);
    InfoMade(p, sfd, time, disk, r);
    CopiesMade(p, md, time, Sector(disk, p.bVol + 1), Sector(disk, p.bVol + 7));
  }

  lemma CopiesMade(p: Plan, md: byte, time: dword, was: seq<byte>, copy: seq<byte>)
    requires Apart(p) && p.subType.Fat32?
    ensures p.bVol <= 63 && SectorMade(p, md, time, p.bVol, was) == SectorMade(p, md, time, p.bVol + 6, copy)
    ensures SectorMade(p, md, time, p.bVol + 1, was) == SectorMade(p, md, time, p.bVol + 7, copy)
    ensures SectorMade(p, md, time, p.bVol, was) == BootRecord(p, md, time)
  {
    hide BootRecord, PartitionTable, FsInfo, FirstFatSector;
  }

  /** The sectors of the FAT behind its first one and those of the root directory are zero. What is behind them is as it
      was, and so is what is before the FAT but the partition table, the boot record, and on FAT32 sectors 1, 6 and 7. */
  lemma AreasMade(p: Plan, sfd: bool, time: dword, disk: seq<byte>, r: seq<byte>, i: nat)
    requires Apart(p) && p.nFat > 0 && p.bVol == (if sfd then 0 else 63) && |r| == |disk| && i < |disk| / 512
    requires Made(p, sfd, time, disk, r)
    ensures
      var fat := p.bVol + p.nRsv;
      var data := fat + p.nFat + if p.subType.Fat32? then p.au else p.nDir;
      && (fat < i < data ==> forall k :: 0 <= k < 512 ==> Sector(r, i)[k] == 0)
      && (i >= data ==> Sector(r, i) == Sector(disk, i))
      && (i < fat && i != p.bVol && (sfd || i != 0) && !(p.subType.Fat32? && i - p.bVol in {1, 6, 7}) ==>
            Sector(r, i) == Sector(disk, i))
  {
    hide Sector, BootRecord, PartitionTable, FsInfo, FirstFatSector;
  }

  /** Mounting finds the free count and the last cluster that f_sync wrote. */
  lemma MountReadsInfo(disk: seq<byte>, free: dword, last: dword)
    requires Mount(disk).Some? && Mount(disk).value.g.subType.Fat32?
    requires
      var s := Mount(disk).value.g.fsiSector;
      s < |disk| / 512 && Sector(disk, s) == FsInfo(free, last)
    ensures Mount(disk).value.free == free && Mount(disk).value.last == last
  {
    hide FindVolume, Parse, LdDword, LdWord, Sector, FsInfo;
    FsInfoReads(free, last);
  }

  /** On FAT12 and FAT16 a volume that is in order has its root table where directories look for it: behind the FATs,
      before the clusters. */
  lemma RootIsLaid(s: seq<byte>, bsect: nat, sectors: nat)
    requires |s| == 512 && Parse(s, bsect).Some? && bsect + TotalOf(s) <= sectors < W
    requires LdWord(s, 14) + FatSizeOf(s) * s[16] + LdWord(s, 17) / 16 < W
    requires
      var g := Parse(s, bsect).value;
      g.nFatent > 2 && !g.subType.Fat32?
    ensures FatDir.Laid(Parse(s, bsect).value, sectors, [])
  {
    hide Parse, ClustersOf, TotalOf, SystemOf, FatSizeOf, NeededFat, Enough, SubTypeOf, LdWord, LdDword, Geometry.Ok;
    Accepted(s, bsect);
    MountedIsOk(s, bsect, sectors);
    SystemIs(s);
    var g := Parse(s, bsect).value;
    Small(bsect + LdWord(s, 14) + s[16] * FatSizeOf(s));
    Small(bsect + LdWord(s, 14));
    Small(bsect + SystemOf(s));
    AreaSize(g);
  }

  /** Mounting finds the boot record that f_mkfs wrote. */
  lemma MadeIsFound(p: Plan, sfd: bool, time: dword, disk: seq<byte>, r: seq<byte>)
    requires Planned(p) && Apart(p) && p.bVol == (if sfd then 0 else 63) && |r| == |disk| && p.bVol < |disk| / 512
    requires Made(p, sfd, time, disk, r)
    ensures FindVolume(r) == Some(p.bVol)
    ensures Sector(r, p.bVol) == BootRecord(p, if sfd then 0xF0 else 0xF8, time)
  {
    hide BootRecord, PartitionTable, Planned, HasFat, LdWord, LdDword, Sector, Fields, SectorMade;
    var md := if sfd then 0xF0 else 0xF8;
    FatSizes(p);
    RecordFields(p, md, time);
    RecordFound(p, BootRecord(p, md, time));
    PartitionReads(p);
    HeadMade(p, md, time, Sector(disk, p.bVol));
    HeadMade(p, md, time, Sector(disk, 0));
  }

  lemma RecordFound(p: Plan, s: seq<byte>)
    requires |s| == 512 && Fields(s, p)
    ensures IsBootRecord(s)
  {
  }

  lemma HeadMade(p: Plan, md: byte, time: dword, was: seq<byte>)
    requires Apart(p)
    ensures SectorMade(p, md, time, p.bVol, was) == BootRecord(p, md, time)
    ensures p.bVol == 63 ==> SectorMade(p, md, time, 0, was) == PartitionTable(p)
  {
    hide BootRecord, PartitionTable, FsInfo;
  }

  /** Mounting a disk that f_mkfs left, in terms of its boot record. */
  lemma MadeIsMounted(p: Plan, sfd: bool, time: dword, disk: seq<byte>, r: seq<byte>)
    requires Planned(p) && Apart(p) && p.bVol == (if sfd then 0 else 63) && |r| == |disk| &&
      p.bVol + p.nRsv < |disk| / 512
    requires Made(p, sfd, time, disk, r)
    ensures
      var g := Parse(BootRecord(p, if sfd then 0xF0 else 0xF8, time), p.bVol);
      && (Mount(r).Some? <==> g.Some?)
      && (g.Some? ==> Mount(r).value.g == g.value)
      && (g == Some(Meant(p)) ==>
            && Mount(r).value.free == (if p.subType.Fat32? then (p.clusters - 1) % W else UNKNOWN)
            && Mount(r).value.last == if p.subType.Fat32? then 0xFFFF_FFFF else 0)
  {
    hide Made, Planned, Parse, BootRecord, LdDword, LdWord, Mount, FindVolume, Sector, IsFsInfo;
    MadeIsFound(p, sfd, time, disk, r);
    MountIs(r, p.bVol);
    if p.subType.Fat32? {
      InfoMade(p, sfd, time, disk, r);
    }
  }

  /** f_mkfs and mount undo each other: on the disk that f_mkfs leaves, mounting finds the volume that was meant, with
      every entry in the FAT, exactly if a cluster is left after alignment and the FAT size did not wrap; and on FAT32 the
      free count that it reads is the number of clusters but one. */
  lemma MadeMounts(p: Plan, sfd: bool, au: dword, block: dword, time: dword, disk: seq<byte>, r: seq<byte>)
    requires |disk| / 512 < W && |r| == |disk| && PlanFor(|disk| / 512, sfd, au, block) == Some(p)
    requires Made(p, sfd, time, disk, r) && p.bVol + p.nRsv + ClearedSectors(p) < |disk| / 512
    ensures p.au > 0
    ensures
      Mount(r).Some? && Mount(r).value.g == Meant(p) && Enough(p.subType, p.clusters + 2, p.nFat) <==>
        Fits(p) && NoWrap(p)
    ensures Fits(p) && NoWrap(p) ==>
      && Mount(r).value.free == (if p.subType.Fat32? then p.clusters - 1 else UNKNOWN)
      && Mount(r).value.last == if p.subType.Fat32? then 0xFFFF_FFFF else 0
  {
    hide Made, Parse, BootRecord, Mount, Fits, NoWrap, Enough, PlanFor, Meant;
    PlanSizes(|disk| / 512, sfd, au, block);
    PlannedApart(|disk| / 512, sfd, au, block);
    Recovered(|disk| / 512, sfd, au, block, if sfd then 0xF0 else 0xF8, time);
    MadeIsMounted(p, sfd, time, disk, r);
    OneDiv(p.au, (p.nVol - p.nRsv - p.nFat - p.nDir) % W);
    Small(p.clusters - if p.clusters > 0 then 1 else 0);
  }

  lemma MountIs(r: seq<byte>, b: nat)
    requires FindVolume(r) == Some(b)
    ensures
      var g := Parse(Sector(r, b), b);
      && (Mount(r).Some? <==> g.Some?)
      && (g.Some? ==> Mount(r).value.g == g.value)
      && (g.Some? && !g.value.subType.Fat32? ==> Mount(r).value.free == UNKNOWN && Mount(r).value.last == 0)
      && (g.Some? && g.value.subType.Fat32? && g.value.fsiSector < |r| / 512 && IsFsInfo(Sector(r, g.value.fsiSector)) ==>
            && Mount(r).value.free == LdDword(Sector(r, g.value.fsiSector), 488)
            && Mount(r).value.last == LdDword(Sector(r, g.value.fsiSector), 492))
  {
    hide FindVolume, Parse, IsFsInfo, LdDword, Sector;
  }

  lemma InfoMade(p: Plan, sfd: bool, time: dword, disk: seq<byte>, r: seq<byte>)
    requires Planned(p) && Apart(p) && p.subType.Fat32? && |r| == |disk| && p.bVol + 1 < |disk| / 512
    requires Made(p, sfd, time, disk, r)
    ensures IsFsInfo(Sector(r, p.bVol + 1)) && LdDword(Sector(r, p.bVol + 1), 488) == (p.clusters - 1) % W
    ensures LdDword(Sector(r, p.bVol + 1), 492) == 0xFFFF_FFFF
  {
    var md := if sfd then 0xF0 else 0xF8;
    assert Sector(r, p.bVol + 1) == SectorMade(p, md, time, p.bVol + 1, Sector(disk, p.bVol + 1));
    hide FsInfo, Planned, LdWord, LdDword, Sector, SectorBy, Made;
    FsInfoReads((p.clusters - 1) % W, 0xFFFF_FFFF);
  }

  // The new volume.

  /** The bytes of the FAT of a made volume. */
  function FatOf(p: Plan, r: seq<byte>): (f: seq<byte>)
    requires 512 * (p.bVol + p.nRsv + p.nFat) <= |r|
    ensures |f| == 512 * p.nFat
  {
    r[512 * (p.bVol + p.nRsv)..512 * (p.bVol + p.nRsv + p.nFat)]
  }

  /** A byte in a run of sectors. */
  lemma ByteOfRun(r: seq<byte>, s: nat, n: nat, k: nat)
    requires 512 * (s + n) <= |r| && k < 512 * n
    ensures s + k / 512 < |r| / 512 && r[512 * s..512 * (s + n)][k] == Sector(r, s + k / 512)[k % 512]
  {
  }

  lemma FatByte(p: Plan, sfd: bool, time: dword, disk: seq<byte>, r: seq<byte>, k: nat)
    requires Apart(p) && |r| == |disk| && Made(p, sfd, time, disk, r)
    requires p.bVol + p.nRsv + ClearedSectors(p) < |disk| / 512 && k < 512 * p.nFat && p.nFat > 0
    ensures 512 * (p.bVol + p.nRsv + p.nFat) <= |r|
    ensures FatOf(p, r)[k] == if k < 512 then FirstFatSector(p.subType, if sfd then 0xF0 else 0xF8)[k] else 0
  {
    hide BootRecord, PartitionTable, FsInfo, FirstFatSector, Sector, SectorMade;
    var i, md := p.bVol + p.nRsv + k / 512, if sfd then 0xF0 else 0xF8;
    assert k / 512 < p.nFat;
    ByteOfRun(r, p.bVol + p.nRsv, p.nFat, k);
    FatMade(p, md, time, k / 512, Sector(disk, i));
  }

  /** Sectors of the FAT as f_mkfs leaves them. */
  lemma FatMade(p: Plan, md: byte, time: dword, i: nat, was: seq<byte>)
    requires Apart(p) && i < p.nFat
    ensures
      SectorMade(p, md, time, p.bVol + p.nRsv + i, was) == if i == 0 then FirstFatSector(p.subType, md) else Zero()
  {
    hide BootRecord, PartitionTable, FsInfo, FirstFatSector;
  }

  lemma FirstFatBytes(t: SubType, md: byte)
    requires md >= 0xF0
    ensures
      var s := FirstFatSector(t, md);
      && (forall k :: (if t.Fat32? then 12 else if t.Fat16? then 4 else 3) <= k < 512 ==> s[k] == 0)
      && s[0] == md && s[1] == 0xFF && s[2] == 0xFF && (!t.Fat12? ==> s[3] == 0xFF)
      && (t.Fat32? ==> LdDword(s, 4) == 0xFFFF_FFFF && LdDword(s, 8) == 0x0FFF_FFFF)
  {
    hide StDword, LdDword;
    var v := md as int + if t.Fat12? then 0x00FF_FF00 else 0xFFFF_FF00;
    var s := StDword(Zero(), 0, v);
    MediaBytes(v);
    MediaDigits(md);
    StElsewhere(StDword(s, 4, 0xFFFF_FFFF), 8, 0x0FFF_FFFF, 4);
  }

  lemma MediaBytes(v: nat)
    ensures
      var s := StDword(Zero(), 0, v);
      s[0] == v % 0x100 && s[1] == v / 0x100 % 0x100 && s[2] == v / 0x1_0000 % 0x100 && s[3] == v / 0x100_0000 % 0x100
  {
  }

  lemma MediaDigits(md: byte)
    ensures forall v: nat | v == md as int + 0x00FF_FF00 || v == md as int + 0xFFFF_FF00 ::
      v % 0x100 == md as int && v / 0x100 % 0x100 == 0xFF && v / 0x1_0000 % 0x100 == 0xFF
    ensures (md as int + 0xFFFF_FF00) / 0x100_0000 % 0x100 == 0xFF
  {
  }

  /** Entry c of a fresh FAT: an end mark for the root directory of FAT32, else free; the reserved ones are not 0. */
  lemma FreshEntry(t: SubType, md: byte, f: seq<byte>, c: nat)
    requires md >= 0xF0 && Past(t, c) <= |f| && |f| >= 512
    requires forall k :: 0 <= k < |f| ==> f[k] == if k < 512 then FirstFatSector(t, md)[k] else 0
    ensures c >= 2 ==> Get(t, f, c) == if t.Fat32? && c == 2 then END_OF_CHAIN else 0
    ensures c < 2 ==> Get(t, f, c) != 0
  {
    hide FirstFatSector;
    FirstFatBytes(t, md);
    match t
    case Fat12 =>
    case Fat16 =>
    case Fat32 =>
  }

  /** A new volume has as many zero entries as its FSInfo says, and holds nothing but, on FAT32, the root directory. */
  lemma FreshFat(p: Plan, sfd: bool, time: dword, disk: seq<byte>, r: seq<byte>)
    requires Apart(p) && |r| == |disk| && Made(p, sfd, time, disk, r) && p.nFat > 0 && p.clusters > 0
    requires p.bVol + p.nRsv + ClearedSectors(p) < |disk| / 512 && Enough(p.subType, p.clusters + 2, p.nFat)
    ensures 512 * (p.bVol + p.nRsv + p.nFat) <= |r|
    ensures
      var fat := Entries(p.subType, FatOf(p, r), p.clusters + 2);
      && Zeros(fat) == p.clusters - (if p.subType.Fat32? then 1 else 0)
      && ReservedZeros(fat, 2) == 0
      && (p.clusters + 2 <= END_OF_CHAIN ==> Forest(fat, if p.subType.Fat32? then {[2]} else {}))
  {
    hide Made, FatOf, FirstFatSector, Past, Get, ClearedSectors, Apart, Forest;
    FatByte(p, sfd, time, disk, r, 0);
    var md := if sfd then 0xF0 else 0xF8;
    forall k | 0 <= k < 512 * p.nFat ensures FatOf(p, r)[k] == if k < 512 then FirstFatSector(p.subType, md)[k] else 0 {
      FatByte(p, sfd, time, disk, r, k);
    }
    var fat := Entries(p.subType, FatOf(p, r), p.clusters + 2);
    forall c: nat | c < |fat|
      ensures if c < 2 then fat[c] != 0 else fat[c] == if p.subType.Fat32? && c == 2 then END_OF_CHAIN else 0
    {
      PastOrder(p.subType, c, p.clusters + 1);
      FreshEntry(p.subType, md, FatOf(p, r), c);
    }
    if p.subType.Fat32? {
      ZerosFull(fat[2 := 0], |fat|);
      ZerosPut(fat, 2, 0);
    } else {
      ZerosFull(fat, |fat|);
    }
    if p.clusters + 2 <= END_OF_CHAIN {
      FreshForest(fat, p.subType.Fat32?);
    }
  }

  lemma PastOrder(t: SubType, c: nat, d: nat)
    requires c <= d
    ensures Past(t, c) <= Past(t, d)
  {
  }

  lemma FreshForest(fat: seq<nat>, root: bool)
    requires |fat| >= 3 && (root ==> |fat| <= END_OF_CHAIN)
    requires forall c :: 2 <= c < |fat| ==> fat[c] == if root && c == 2 then END_OF_CHAIN else 0
    ensures Forest(fat, if root then {[2]} else {})
  {
  }

  /** Mounting what f_mkfs made gives a volume in order: if the end mark is no cluster, its chains are those of the empty
      file system; the free count is exact whenever it is known, and on FAT32 it is known. */
  method MountMade(p: Plan, sfd: bool, au: dword, block: dword, time: dword, ghost disk: seq<byte>, r: seq<byte>)
      returns (v: Volume)
    requires |disk| / 512 < W && |r| == |disk| && PlanFor(|disk| / 512, sfd, au, block) == Some(p)
    requires Made(p, sfd, time, disk, r) && p.bVol + p.nRsv + ClearedSectors(p) < |disk| / 512 && |r| % 512 == 0
    requires Fits(p) && NoWrap(p)
    ensures fresh(v) && v.Valid() && v.g == Meant(p) && v.Logical() == r && v.g.DataOk(|r| / 512)
    ensures v.g.Marked() ==> Forest(v.Fat(), if p.subType.Fat32? then {[2]} else {})
    ensures v.FreeExact() && ReservedZeros(v.Fat(), 2) == 0
    ensures p.subType.Fat32? ==> v.freeClust == Zeros(v.Fat())
  {
    hide Made, Parse, BootRecord, Mount, Fits, NoWrap, Enough, PlanFor, Meant, Forest, Zeros, ReservedZeros,
      Volume.Valid, Volume.Logical;
    MadeMounts(p, sfd, au, block, time, disk, r);
    MeantIsOk(|disk| / 512, sfd, au, block);
    MeantFat(p, r);
    PlanSizes(|disk| / 512, sfd, au, block);
    PlannedApart(|disk| / 512, sfd, au, block);
    FreshFat(p, sfd, time, disk, r);
    var m := Mount(r).value;
    v := new Volume(m.g, r, m.free, m.last);
    v.FatIs();
  }

  lemma MeantFat(p: Plan, r: seq<byte>)
    requires p.au > 0 && Meant(p).Ok(|r| / 512)
    ensures Mirrored(Meant(p), r) && 512 * (p.bVol + p.nRsv + p.nFat) <= |r|
    ensures Copy(Meant(p), r, 0) == FatOf(p, r) && Meant(p).nFatent == p.clusters + 2 && Meant(p).subType == p.subType
  {
  }
}
