/** Making a file system and mounting it again (f_mkfs, check_fs, chk_mounted), with 32-bit machine words. */
module FatMkfs {
  import opened Bytes
  import opened Common
  import opened FatBoot
  import opened FatChains
  import opened FatCodec
  import opened FatLayout
  import opened FatVolume

  // Mounting.

  /** Total sectors of the volume, from its boot record. */
  function TotalOf(s: seq<byte>): (r: nat)
    requires |s| == 512
    ensures r < W
  {
    if LdWord(s, 19) != 0 then LdWord(s, 19) else LdDword(s, 32)
  }

  /** Sectors of one FAT. */
  function FatSizeOf(s: seq<byte>): (r: nat)
    requires |s| == 512
    ensures r < W
  {
    if LdWord(s, 22) != 0 then LdWord(s, 22) else LdDword(s, 36)
  }

  /** Sectors before the data area. */
  function SystemOf(s: seq<byte>): (r: nat)
    requires |s| == 512
    ensures r < W
  {
    (LdWord(s, 14) + FatSizeOf(s) * s[16] % W + LdWord(s, 17) / 16) % W
  }

  /** The FAT size in sectors that mounting asks for. */
  function NeededFat(t: SubType, n: nat): nat {
    var bytes := match t case Fat32 => 4 * n % W case Fat16 => 2 * n % W case Fat12 => 3 * n % W / 2 + n % 2;
    (bytes + 511) % W / 512
  }

  function IsBootRecord(s: seq<byte>): bool
    requires |s| == 512
  {
    LdWord(s, 510) == 0xAA55 && HasFat(s)
  }

  /** The volume that starts at sector bsect with boot record s, if mounting accepts it. */
  function Parse(s: seq<byte>, bsect: nat): Option<Geometry>
    requires |s| == 512
  {
    if !IsBootRecord(s) || LdWord(s, 11) != 512 then None
    else if s[16] != 1 && s[16] != 2 then None
    else if s[13] !in {1, 2, 4, 8, 16, 32, 64, 128} then None
    else if LdWord(s, 17) % 16 != 0 then None
    else if LdWord(s, 14) == 0 then None
    else if TotalOf(s) < SystemOf(s) then None
    else
      var clusters := (TotalOf(s) - SystemOf(s)) / s[13];
      var t := SubTypeOf(clusters);
      var n := (clusters + 2) % W;
      var fatbase := (bsect + LdWord(s, 14)) % W;
      if clusters == 0 then None
      else if t.Fat32? != (LdWord(s, 17) == 0) then None
      else if FatSizeOf(s) < NeededFat(t, n) then None
      else
        var dirbase := if t.Fat32? then LdDword(s, 44) else (fatbase + FatSizeOf(s) * s[16] % W) % W;
        Some(Geometry(t, s[13], s[16], fatbase, FatSizeOf(s), LdWord(s, 17), dirbase, (bsect + SystemOf(s)) % W, n,
                      if t.Fat32? then (bsect + LdWord(s, 48)) % W else 0))
  }

  /** Do the entries of all clusters lie in the FAT? */
  predicate Enough(t: SubType, n: nat, fsize: nat)
    requires n > 0
  {
    Past(t, n - 1) <= 512 * fsize
  }

  /** What is known of a volume that was accepted. */
  lemma Accepted(s: seq<byte>, bsect: nat)
    requires |s| == 512 && Parse(s, bsect).Some?
    ensures
      var g := Parse(s, bsect).value;
      var clusters := ClustersOf(s);
      && Size(s[13]) && g.csize == s[13] && g.nFats == s[16] && 1 <= s[16] <= 2
      && LdWord(s, 14) > 0 && LdWord(s, 17) % 16 == 0 && TotalOf(s) >= SystemOf(s) && 0 < clusters < W
      && g.subType == SubTypeOf(clusters) && g.nFatent == (clusters + 2) % W
      && g.fatbase == (bsect + LdWord(s, 14)) % W && g.database == (bsect + SystemOf(s)) % W
      && g.fsize == FatSizeOf(s) >= NeededFat(g.subType, g.nFatent)
      && (g.subType.Fat32? ==> g.fsiSector == (bsect + LdWord(s, 48)) % W)
      && g.nRootdir == LdWord(s, 17)
      && (if g.subType.Fat32? then g.dirbase == LdDword(s, 44)
          else g.dirbase == (bsect + LdWord(s, 14) + s[16] * FatSizeOf(s)) % W &&
               g.database == (g.dirbase + g.nRootdir / 16) % W)
  {
    hide SubTypeOf, TotalOf, FatSizeOf, NeededFat, IsBootRecord, LdDword, LdWord;
    DivTimes(s[13], TotalOf(s) - SystemOf(s));
    SumOfWords(bsect, LdWord(s, 14), FatSizeOf(s) * s[16], LdWord(s, 17) / 16);
  }

  /** Sums of words are the same whenever they are cut to 32 bits. */
  lemma SumOfWords(a: nat, b: nat, c: nat, d: nat)
    ensures ((a + b) % W + c % W) % W == (a + b + c) % W
    ensures (a + (b + c % W + d) % W) % W == ((a + b + c) % W + d) % W
  {
    CutEarly(a + b, c % W);
    CutEarly(c, a + b);
    CutEarly(b + c % W + d, a);
    CutEarly(c, a + b + d);
    CutEarly(a + b + c, d);
  }

  lemma CutEarly(x: nat, y: nat)
    ensures (x % W + y) % W == (x + y) % W
  {
  }

  /** Does a FAT of so many sectors hold the entries of so many clusters, and the two reserved ones? On FAT32 the bytes
      are counted in 32 bits, and no more than 511 can be missing to the end of the word. */
  predicate HoldsAll(clusters: nat, fsize: nat) {
    if clusters >= 65526 then
      var bytes := 4 * (clusters + 2) % W;
      bytes + 511 < W ==> bytes <= 512 * fsize
    else if clusters >= 4086 then 2 * (clusters + 2) <= 512 * fsize
    else (3 * (clusters + 2) + 1) / 2 <= 512 * fsize
  }

  lemma NeededIs(clusters: nat, fsize: nat)
    requires clusters < W
    ensures fsize >= NeededFat(SubTypeOf(clusters), (clusters + 2) % W) <==> HoldsAll(clusters, fsize)
  {
    var n := clusters + 2;
    match SubTypeOf(clusters)
    case Fat32 =>
      FourTimes(n);
      SectorsFor(4 * n % W, fsize);
    case Fat16 =>
      Small(n);
      Small(2 * n);
      SectorsFor(2 * n, fsize);
    case Fat12 =>
      Small(n);
      Small(3 * n);
      HalfOf(n);
      SectorsFor((3 * n + 1) / 2, fsize);
  }

  lemma FourTimes(n: nat)
    ensures 4 * (n % W) % W == 4 * n % W
  {
  }

  lemma HalfOf(n: nat)
    ensures 3 * n / 2 + n % 2 == (3 * n + 1) / 2
  {
    var a, b := n / 2, n % 2;
    Halves(3 * a, 3 * b);
    Halves(3 * a, 3 * b + 1);
    assert 3 * n == 2 * (3 * a) + 3 * b;
  }

  lemma SectorsFor(bytes: nat, f: nat)
    requires bytes < W
    ensures f >= (bytes + 511) % W / 512 <==> (bytes + 511 < W ==> bytes <= 512 * f)
  {
  }

  /** Which records are accepted, field by field: the signatures, sectors of 512 bytes, one or two FATs, clusters of a
      power of two of sectors, a root table of whole sectors, reserved sectors, room for a cluster, a root table except on
      FAT32, and a FAT that holds all entries. */
  lemma AcceptedExactly(s: seq<byte>, bsect: nat)
    requires |s| == 512
    ensures
      var total := if LdWord(s, 19) != 0 then LdWord(s, 19) else LdDword(s, 32);
      var fsize := if LdWord(s, 22) != 0 then LdWord(s, 22) else LdDword(s, 36);
      var used := (LdWord(s, 14) + fsize * s[16] % W + LdWord(s, 17) / 16) % W;
      Parse(s, bsect).Some? <==>
        && LdWord(s, 510) == 0xAA55 && HasFat(s) && LdWord(s, 11) == 512 && 1 <= s[16] <= 2
        && s[13] in {1, 2, 4, 8, 16, 32, 64, 128} && LdWord(s, 17) % 16 == 0 && LdWord(s, 14) > 0 && used <= total
        && var clusters := (total - used) / s[13];
           && clusters > 0 && (clusters >= 65526 <==> LdWord(s, 17) == 0) && HoldsAll(clusters, fsize)
  {
    hide NeededFat, HoldsAll, LdWord, LdDword, HasFat;
    if s[13] in {1, 2, 4, 8, 16, 32, 64, 128} && TotalOf(s) >= SystemOf(s) {
      DivTimes(s[13], TotalOf(s) - SystemOf(s));
      OneDiv(s[13], TotalOf(s) - SystemOf(s));
      NeededIs((TotalOf(s) - SystemOf(s)) / s[13], FatSizeOf(s));
    }
  }

  function ClustersOf(s: seq<byte>): nat
    requires |s| == 512
  {
    if s[13] == 0 || TotalOf(s) < SystemOf(s) then 0 else (TotalOf(s) - SystemOf(s)) / s[13]
  }

  lemma NeededIsEnough(t: SubType, clusters: nat, f: nat)
    requires t == SubTypeOf(clusters) && !t.Fat32? && f >= NeededFat(t, (clusters + 2) % W)
    ensures Enough(t, clusters + 2, f)
  {
    var n := clusters + 2;
    Small(n);
    if t.Fat16? {
      Small(2 * n);
      Small(2 * n + 511);
    } else {
      Small(3 * n);
      Bytes12(clusters);
      Sectors12((3 * clusters + 1) / 2 + 3, f);
    }
  }

  lemma Sectors12(bytes: nat, f: nat)
    requires bytes + 511 < W && f >= (bytes + 511) % W / 512
    ensures 512 * f >= bytes
  {
  }

  /** On FAT12 and FAT16 volumes the mount check makes every entry lie in the FAT. */
  lemma SmallFatEnough(s: seq<byte>, bsect: nat)
    requires |s| == 512 && Parse(s, bsect).Some?
    ensures
      var g := Parse(s, bsect).value;
      g.nFatent > 0 && !g.subType.Fat32? ==> Enough(g.subType, g.nFatent, g.fsize)
  {
    hide Parse, ClustersOf, NeededFat, Enough, TotalOf, SystemOf, FatSizeOf, LdWord, LdDword, Size;
    Accepted(s, bsect);
    var g, c := Parse(s, bsect).value, ClustersOf(s);
    if !g.subType.Fat32? {
      NeededIsEnough(g.subType, c, g.fsize);
    }
  }

  /** On FAT32 the check does so, whatever the size of the FAT, exactly when the byte count of the entries does not
      wrap. */
  lemma BigFatEnough(n: nat)
    requires 0 < n < W
    ensures (forall f: nat :: f >= NeededFat(Fat32, n) ==> Enough(Fat32, n, f)) <==> 4 * n + 511 < W
  {
    if 4 * n + 511 >= W {
      assert !Enough(Fat32, n, NeededFat(Fat32, n));
    }
  }

  /** On FAT32 volumes the mount check makes every entry lie in the FAT when the byte count does not wrap. */
  lemma LargeFatEnough(s: seq<byte>, bsect: nat)
    requires |s| == 512 && Parse(s, bsect).Some?
    ensures
      var g := Parse(s, bsect).value;
      g.nFatent > 0 && g.subType.Fat32? && 4 * g.nFatent + 511 < W ==> Enough(Fat32, g.nFatent, g.fsize)
  {
    Accepted(s, bsect);
    var g := Parse(s, bsect).value;
    hide Parse, NeededFat, Enough;
    if g.nFatent > 0 && g.subType.Fat32? {
      BigFatEnough(g.nFatent);
    }
  }

  /** The boot record of a volume of 512 GB with clusters of one sector, and a FAT of no sectors. */
  function NoFatRecord(): (s: seq<byte>)
    ensures |s| == 512
  {
    var zero: seq<byte> := seq(512, _ => 0);
    zero[12 := 2][13 := 1][14 := 32][16 := 1][32 := 30][35 := 0x40][82 := 0x46][83 := 0x41][84 := 0x54][510 := 0x55][511 := 0xAA]
  }

  lemma NoFatFields()
    ensures
      var s := NoFatRecord();
      && LdWord(s, 510) == 0xAA55 && LdWord(s, 11) == 512 && LdWord(s, 14) == 32 && LdWord(s, 17) == 0
      && LdWord(s, 19) == 0 && LdDword(s, 32) == 0x4000_001E && LdWord(s, 22) == 0 && LdDword(s, 36) == 0
      && s[13] == 1 && s[16] == 1 && HasFat(s)
  {
  }

  /** It is accepted, although no entry lies in its FAT: the byte count of the entries wraps to 0. */
  lemma NoFatIsAccepted()
    ensures
      var s := NoFatRecord();
      && Parse(s, 0).Some?
      && Parse(s, 0).value.nFatent == 0x4000_0000
      && Parse(s, 0).value.fsize == 0
      && !Enough(Parse(s, 0).value.subType, 0x4000_0000, 0)
  {
    hide NoFatRecord, LdWord, LdDword, HasFat;
    NoFatFields();
    var s := NoFatRecord();
    assert TotalOf(s) == 0x4000_001E && SystemOf(s) == 32 && ClustersOf(s) == 0x3FFF_FFFE;
    assert NeededFat(Fat32, 0x4000_0000) == 0;
  }

  /** The end mark reads back as no cluster of the volume, on FAT32 exactly up to 0x0FFFFFFF entries. */
  lemma EndMarkIsNoCluster(s: seq<byte>, bsect: nat)
    requires |s| == 512 && Parse(s, bsect).Some?
    ensures
      var g := Parse(s, bsect).value;
      g.Marked() <==> (g.subType.Fat32? ==> g.nFatent <= END_OF_CHAIN)
  {
    Accepted(s, bsect);
    var g := Parse(s, bsect).value;
    hide Parse, ClustersOf, LdWord, TotalOf, SystemOf, FatSizeOf, NeededFat;
    MarkOfType(g.subType, ClustersOf(s), g.nFatent);
  }

  lemma MarkOfType(t: SubType, clusters: nat, n: nat)
    requires t == SubTypeOf(clusters) && n == (clusters + 2) % W
    ensures n <= Cut(t, END_OF_CHAIN) <==> (t.Fat32? ==> n <= END_OF_CHAIN)
  {
  }

  /** A mounted volume that lies on the medium, whose words do not wrap, meets what the FAT functions need. */
  lemma MountedIsOk(s: seq<byte>, bsect: nat, sectors: nat)
    requires |s| == 512 && Parse(s, bsect).Some? && bsect + TotalOf(s) <= sectors < W
    requires LdWord(s, 14) + FatSizeOf(s) * s[16] + LdWord(s, 17) / 16 < W
    requires
      var g := Parse(s, bsect).value;
      && g.nFatent > 2
      && (g.subType.Fat32? ==> 4 * g.nFatent + 511 < W && 0 < LdWord(s, 48) < LdWord(s, 14))
    ensures Parse(s, bsect).value.Ok(sectors) && Parse(s, bsect).value.DataOk(sectors)
  {
    hide Parse, ClustersOf, TotalOf, SystemOf, FatSizeOf, NeededFat, Enough, SubTypeOf, LdWord, Size, Geometry.Ok,
      Geometry.DataOk;
    Accepted(s, bsect);
    SmallFatEnough(s, bsect);
    LargeFatEnough(s, bsect);
    SystemIs(s);
    ClustersIs(s);
    WordsFit(Parse(s, bsect).value, sectors, bsect, LdWord(s, 14), LdWord(s, 17) / 16, TotalOf(s), SystemOf(s),
             ClustersOf(s), LdWord(s, 48));
  }

  /** No word wraps, so the areas lie one behind the other on the medium. */
  lemma WordsFit(g: Geometry, sectors: nat, bsect: nat, nrsv: nat, ndir: nat, total: nat, system: nat, clusters: nat,
                 info: nat)
    requires 1 <= g.nFats <= 2 && nrsv > 0 && Size(g.csize)
    requires system == nrsv + g.fsize * g.nFats + ndir < W && system <= total && bsect + total <= sectors < W
    requires g.csize > 0 && clusters == (total - system) / g.csize && 2 < g.nFatent == (clusters + 2) % W
    requires Enough(g.subType, g.nFatent, g.fsize)
    requires g.fatbase == (bsect + nrsv) % W && g.database == (bsect + system) % W
    requires g.subType.Fat32? ==> 0 < info < nrsv && g.fsiSector == (bsect + info) % W
    ensures g.Ok(sectors) && g.DataOk(sectors)
  {
    hide Size, Enough, Geometry.Ok, Geometry.DataOk;
    OneDiv(g.csize, total - system);
    Small(bsect + nrsv);
    Small(bsect + system);
    Small(clusters + 2);
    Small(bsect + info);
    AreaIs(g, sectors, bsect, nrsv, ndir, total - system);
  }

  lemma ClustersIs(s: seq<byte>)
    requires |s| == 512 && Size(s[13]) && TotalOf(s) >= SystemOf(s)
    ensures s[13] > 0 && ClustersOf(s) == (TotalOf(s) - SystemOf(s)) / s[13]
  {
  }

  lemma Small(x: nat)
    ensures x < W ==> x % W == x
    ensures x % W > 2 && x < W + 2 ==> x < W
  {
  }

  lemma SystemIs(s: seq<byte>)
    requires |s| == 512 && LdWord(s, 14) + FatSizeOf(s) * s[16] + LdWord(s, 17) / 16 < W
    ensures SystemOf(s) == LdWord(s, 14) + FatSizeOf(s) * s[16] + LdWord(s, 17) / 16
  {
    hide LdWord, FatSizeOf;
    Small(FatSizeOf(s) * s[16]);
  }

  lemma AreaIs(g: Geometry, sectors: nat, bsect: nat, nrsv: nat, ndir: nat, left: nat)
    requires 1 <= g.nFats <= 2 && nrsv > 0 && 2 < g.nFatent && Size(g.csize)
    requires Enough(g.subType, g.nFatent, g.fsize)
    requires g.fatbase == bsect + nrsv && g.database == bsect + nrsv + g.fsize * g.nFats + ndir
    requires g.database + left <= sectors < W && g.nFatent - 2 == left / g.csize
    requires g.subType.Fat32? ==> 0 < g.fsiSector < g.fatbase
    ensures g.Ok(sectors) && g.DataOk(sectors)
  {
    hide Past;
    PastEntry(g.subType, g.nFatent - 1);
    DivTimes(g.csize, left);
    OneDiv(g.csize, left);
    AreaSize(g);
    var n := g.nFatent - 2;
    assert n * g.csize <= left;
  }

  lemma PastEntry(t: SubType, c: nat)
    ensures Past(t, c) > 0
  {
  }

  lemma AreaSize(g: Geometry)
    requires 1 <= g.nFats <= 2
    ensures g.FatArea() == g.fsize * g.nFats
  {
  }

  lemma DivTimes(n: nat, x: nat)
    requires Size(n)
    ensures x / n * n <= x < x / n * n + n && (x / n > 0 <==> x >= n)
  {
  }

  // Making.

  /** Powers of two, and the test the code has for them. */
  predicate PowerOfTwo(x: nat) {
    x in {0x1, 0x2, 0x4, 0x8, 0x10, 0x20, 0x40, 0x80, 0x100, 0x200, 0x400, 0x800, 0x1000, 0x2000, 0x4000, 0x8000,
          0x1_0000, 0x2_0000, 0x4_0000, 0x8_0000, 0x10_0000, 0x20_0000, 0x40_0000, 0x80_0000, 0x100_0000, 0x200_0000,
          0x400_0000, 0x800_0000, 0x1000_0000, 0x2000_0000, 0x4000_0000, 0x8000_0000}
  }

  /** The block size for the driver's reply, which is 0 if it does not know one. */
  function BlockSize(reply: dword): (n: nat)
    ensures 1 <= n <= 0x8000
  {
    if reply == 0 || reply > 0x8000 then 1 else reply
  }

  const VST: seq<nat> := [1024, 512, 256, 128, 64, 32, 16, 8, 4, 2, 0]
  const CST: seq<nat> := [32768, 16384, 8192, 4096, 2048, 16384, 8192, 4096, 2048, 1024, 512]

  /** Allocation units by volume size: that of the first entry of the table, from i on, that vs reaches. */
  function Unit(vs: nat, i: nat): (r: nat)
    requires i <= 10
    ensures PowerOfTwo(r) && 512 <= r <= 32768
    decreases 10 - i
  {
    if i < 10 && vs < VST[i] then Unit(vs, i + 1) else CST[i]
  }

  /** Sectors per cluster for the allocation unit asked for, in bytes; 0 and what is no power of two mean automatic. */
  function ClusterSize(au: dword, nVol: nat): (r: nat)
    ensures Size(r)
  {
    var bytes := if PowerOfTwo(au) then au else Unit(nVol / 2000, 0);
    var sectors := bytes / 512;
    if sectors == 0 then 1 else if sectors > 128 then 128 else sectors
  }

  /** Sectors per cluster, for an allocation unit in bytes and else by the size of the volume in megabytes. */
  lemma ClusterSizeIs(au: dword, nVol: nat)
    ensures
      var mb := nVol / 2000;
      ClusterSize(au, nVol) ==
      if PowerOfTwo(au) then (if au < 1024 then 1 else if au > 65536 then 128 else au / 512)
      else if mb >= 1024 then 64 else if mb >= 512 then 32 else if mb >= 256 then 16 else if mb >= 128 then 8
      else if mb >= 64 then 4 else if mb >= 32 then 32 else if mb >= 16 then 16 else if mb >= 8 then 8
      else if mb >= 4 then 4 else if mb >= 2 then 2 else 1
  {
    hide PowerOfTwo;
    var mb := nVol / 2000;
    assert Unit(mb, 10) == CST[10] && Unit(mb, 8) == if mb < VST[8] then Unit(mb, 9) else CST[8];
    assert Unit(mb, 6) == if mb < VST[6] then Unit(mb, 7) else CST[6];
    assert Unit(mb, 4) == if mb < VST[4] then Unit(mb, 5) else CST[4];
    assert Unit(mb, 2) == if mb < VST[2] then Unit(mb, 3) else CST[2];
    assert Unit(mb, 0) == if mb < VST[0] then Unit(mb, 1) else CST[0];
  }

  /** The test of the code for powers of two, a & (a - 1) == 0. */
  lemma {:induction false} SingleBit(a: nat)
    requires a > 0
    ensures BitAnd(a, a - 1) == 0 <==> exists k: nat :: Pow2(k) == a
    decreases a
  {
    var h := a / 2;
    if a == 1 {
      assert Pow2(0) == 1;
    } else if a % 2 == 0 {
      assert (a - 1) / 2 == h - 1 && (a - 1) % 2 == 1;
      assert BitAnd(a, a - 1) == 2 * BitAnd(h, h - 1);
      SingleBit(h);
      if exists k: nat :: Pow2(k) == h {
        var k: nat :| Pow2(k) == h;
        assert Pow2(k + 1) == a;
      }
      if exists k: nat :: Pow2(k) == a {
        var k: nat :| Pow2(k) == a;
        assert k > 0 && Pow2(k - 1) == h;
      }
    } else {
      assert BitAnd(a, a - 1) == 2 * BitAnd(h, h);
      AllBits(h);
      forall k: nat ensures Pow2(k) != a {
        assert k > 0 ==> Pow2(k) == 2 * Pow2(k - 1);
      }
    }
  }

  lemma {:induction false} AllBits(a: nat)
    ensures BitAnd(a, a) == a
  {
    if a > 0 {
      AllBits(a / 2);
    }
  }

  /** In a word, these are the powers of two. */
  lemma {:induction false} PowersOfTwo(a: dword)
    ensures PowerOfTwo(a) <==> exists k: nat :: Pow2(k) == a
    decreases a
  {
    hide PowerOfTwo;
    if PowerOfTwo(a) {
      HalfOfPower(a);
    } else if a > 1 && a % 2 == 0 && PowerOfTwo(a / 2) {
      TwiceAPower(a);
    }
    if a <= 1 {
      Least(a);
      if a == 1 {
        var k: nat := 0;
        assert Pow2(k) == a;
      } else {
        forall k: nat ensures Pow2(k) != a {
        }
      }
    } else {
      PowersOfTwo(a / 2);
      if exists k: nat :: Pow2(k) == a / 2 {
        var k: nat :| Pow2(k) == a / 2;
        assert Pow2(k + 1) == 2 * (a / 2);
      }
      if exists k: nat :: Pow2(k) == a {
        var k: nat :| Pow2(k) == a;
        assert k > 0 && Pow2(k - 1) == a / 2;
      }
    }
  }

  lemma Least(a: nat)
    requires a <= 1
    ensures PowerOfTwo(a) <==> a == 1
  {
  }

  lemma HalfOfPower(a: dword)
    requires PowerOfTwo(a)
    ensures a > 0 && (a > 1 ==> a % 2 == 0 && PowerOfTwo(a / 2))
  {
  }

  lemma TwiceAPower(a: dword)
    requires a > 1 && a % 2 == 0 && PowerOfTwo(a / 2)
    ensures PowerOfTwo(a)
  {
  }

  /** The bits that a and m have in common. */
  function BitAnd(a: nat, m: nat): (r: nat)
    ensures r <= a && r <= m
  {
    if a == 0 || m == 0 then 0 else 2 * BitAnd(a / 2, m / 2) + a % 2 * (m % 2)
  }

  /** The next block boundary: the bits of block - 1 are cleared, also when block is no power of two. */
  function AlignUp(b: nat, block: nat): (r: nat)
    requires block > 0
    ensures b <= r < b + block
  {
    var x := b + block - 1;
    x - BitAnd(x, block - 1)
  }

  function Pow2(k: nat): (r: nat)
    ensures r > 0
  {
    if k == 0 then 1 else 2 * Pow2(k - 1)
  }

  lemma {:induction false} LowBits(x: nat, k: nat)
    ensures BitAnd(x, Pow2(k) - 1) == x % Pow2(k)
    decreases k
  {
    hide BitAnd;
    if k > 0 {
      var p := Pow2(k - 1);
      LowBits(x / 2, k - 1);
      AndStep(x, p);
      DoubleMod(x, p);
    }
  }

  lemma AndStep(x: nat, p: nat)
    requires p > 0
    ensures BitAnd(x, 2 * p - 1) == 2 * BitAnd(x / 2, p - 1) + x % 2
  {
    assert (2 * p - 1) / 2 == p - 1 && (2 * p - 1) % 2 == 1;
  }

  lemma DoubleMod(x: nat, p: nat)
    requires p > 0
    ensures x % (2 * p) == 2 * (x / 2 % p) + x % 2
  {
    var q, r := x / 2 / p, x / 2 % p;
    assert x / 2 == q * p + r;
    assert x == 2 * p * q + (2 * r + x % 2);
    ModIs(x, 2 * p, q, 2 * r + x % 2);
  }

  lemma ModIs(x: nat, n: nat, q: nat, r: nat)
    requires r < n && x == n * q + r
    ensures x % n == r
  {
    assert n * (x / n) + x % n == x;
    assert n * (x / n - q) == r - x % n;
    AtLeastOnce(n, x / n - q);
  }

  lemma AtLeastOnce(n: nat, d: int)
    ensures d >= 1 ==> n * d >= n
    ensures d <= -1 ==> n * d + n <= 0
  {
  }

  /** For a power of two it is the least multiple that is not smaller. */
  lemma AlignIs(b: nat, k: nat)
    ensures AlignUp(b, Pow2(k)) == (b + Pow2(k) - 1) - (b + Pow2(k) - 1) % Pow2(k)
    ensures AlignUp(b, Pow2(k)) % Pow2(k) == 0
  {
    hide BitAnd, Pow2;
    var n := Pow2(k);
    var x := b + n - 1;
    LowBits(x, k);
    Rounded(x, n);
  }

  lemma Rounded(x: nat, n: nat)
    requires n > 0
    ensures 0 <= x - x % n && (x - x % n) % n == 0
  {
    assert x - x % n == n * (x / n);
    ModIs(x - x % n, n, x / n, 0);
  }

  lemma Align512(b: nat)
    ensures AlignUp(b, 512) == (b + 511) - (b + 511) % 512
  {
    hide BitAnd;
    assert Pow2(2) == 4 && Pow2(4) == 16 && Pow2(6) == 64 && Pow2(8) == 256;
    assert Pow2(9) == 512;
    AlignIs(b, 9);
  }

  /** FAT sectors before alignment, for c clusters. */
  function FirstFatSize(t: SubType, c: nat): nat {
    match t
    case Fat32 => (4 * c + 519) % W / 512
    case Fat12 => ((3 * c + 1) / 2 + 3 + 511) / 512
    case Fat16 => (2 * c + 4 + 511) / 512
  }

  /** The plan for a disk of nDisk sectors, unpartitioned (sfd) or with one partition; None if f_mkfs gives up. */
  function PlanFor(nDisk: dword, sfd: bool, au: dword, block: dword): Option<Plan> {
    if nDisk < 128 then None
    else
      var bVol := if sfd then 0 else 63;
      var nVol := nDisk - bVol;
      var size := ClusterSize(au, nVol);
      var t := SubTypeOf(nVol / size);
      var nFat := FirstFatSize(t, nVol / size);
      var nRsv := if t.Fat32? then 32 else 1;
      var nDir := if t.Fat32? then 0 else 32;
      var bData := bVol + nRsv + nFat + nDir;
      if nVol < bData + size then None
      else
        var n := AlignUp(bData, BlockSize(block)) - bData;
        var rsv := if t.Fat32? then nRsv + n else nRsv;
        var fat := if t.Fat32? then nFat else nFat + n;
        var clusters := (nVol - rsv - fat - nDir) % W / size;
        if (t.Fat16? && clusters < MIN_FAT16) || (t.Fat32? && clusters < MIN_FAT32) then None
        else Some(Plan(t, size, bVol, nVol, rsv, fat, nDir, clusters))
  }

  /** After alignment, is there room for a cluster? */
  predicate Fits(p: Plan) {
    p.nRsv + p.nFat + p.nDir + p.au <= p.nVol
  }

  /** Do the computations of the FAT size stay in 32 bits? */
  predicate NoWrap(p: Plan)
    requires p.au > 0
  {
    p.subType.Fat32? ==> 4 * (p.nVol / p.au) + 519 < W
  }

  /** The volume that was meant. */
  function Meant(p: Plan): Geometry {
    var fatbase := p.bVol + p.nRsv;
    Geometry(p.subType, p.au, 1, fatbase, p.nFat, if p.subType.Fat32? then 0 else N_ROOTDIR,
             if p.subType.Fat32? then 2 else fatbase + p.nFat, fatbase + p.nFat + p.nDir, p.clusters + 2,
             if p.subType.Fat32? then p.bVol + 1 else 0)
  }

  /** The sizes in a plan fit together. */
  ghost predicate Planned(p: Plan) {
    && Size(p.au) && p.bVol <= 63 && 65 <= p.nVol < W && p.subType == SubTypeOf(p.nVol / p.au)
    && p.nDir == (if p.subType.Fat32? then 0 else 32)
    && (if p.subType.Fat32? then 32 <= p.nRsv < 0x1_0000 && p.nFat == FirstFatSize(Fat32, p.nVol / p.au)
        else p.nRsv == 1 && FirstFatSize(p.subType, p.nVol / p.au) <= p.nFat < FirstFatSize(p.subType, p.nVol / p.au) + 0x8000)
    && p.clusters == (p.nVol - p.nRsv - p.nFat - p.nDir) % W / p.au
    && (p.subType.Fat16? ==> p.clusters >= MIN_FAT16) && (p.subType.Fat32? ==> p.clusters >= MIN_FAT32)
  }

  /** Those of f_mkfs do, and the volume reaches to the end of the disk. */
  lemma PlanSizes(nDisk: dword, sfd: bool, au: dword, block: dword)
    requires PlanFor(nDisk, sfd, au, block).Some?
    ensures
      var p := PlanFor(nDisk, sfd, au, block).value;
      Planned(p) && p.au > 0 && p.nVol == nDisk - p.bVol
  {
    hide AlignUp, FirstFatSize, SubTypeOf, ClusterSize, BlockSize, PowerOfTwo;
  }

  /** The data area begins at the first boundary of an erase block behind the areas before it, when the driver reports
      blocks of a power of two of sectors, up to 32768; and right behind them when it reports none or larger ones. */
  lemma PlanIsAligned(nDisk: dword, sfd: bool, au: dword, block: dword)
    requires PlanFor(nDisk, sfd, au, block).Some?
    ensures
      var p := PlanFor(nDisk, sfd, au, block).value;
      var least := p.bVol + (if p.subType.Fat32? then 32 else 1) + FirstFatSize(p.subType, p.nVol / p.au) + p.nDir;
      var start := p.bVol + p.nRsv + p.nFat + p.nDir;
      && (block == 0 || block > 32768 ==> start == least)
      && forall k: nat :: k <= 15 && block == Pow2(k) ==> start % block == 0 && least <= start < least + block
  {
    hide FirstFatSize, SubTypeOf, ClusterSize, PowerOfTwo, BitAnd;
    var p := PlanFor(nDisk, sfd, au, block).value;
    var least := p.bVol + (if p.subType.Fat32? then 32 else 1) + FirstFatSize(p.subType, p.nVol / p.au) + p.nDir;
    assert p.bVol + p.nRsv + p.nFat + p.nDir == AlignUp(least, BlockSize(block));
    forall k: nat | k <= 15 && block == Pow2(k)
      ensures AlignUp(least, BlockSize(block)) % block == 0 && BlockSize(block) == block
    {
      UpTo15(k);
      AlignIs(least, k);
    }
    assert BlockSize(block) == 1 ==> AlignUp(least, BlockSize(block)) == least;
  }

  /** f_mkfs gives up on less than 128 sectors; if the areas before the data and one cluster do not fit, the sectors before
      the partition counted twice; and if what is left behind the aligned areas is too few clusters for the FAT type. */
  lemma GivesUp(nDisk: dword, sfd: bool, au: dword, block: dword)
    ensures
      PlanFor(nDisk, sfd, au, block).None? <==>
      || nDisk < 128
      || var before := if sfd then 0 else 63;
         var size := ClusterSize(au, nDisk - before);
         var c := (nDisk - before) / size;
         var t := SubTypeOf(c);
         var least := before + (if t.Fat32? then 32 else 33) + FirstFatSize(t, c);
         var left := (nDisk - AlignUp(least, BlockSize(block))) % W / size;
         || nDisk < least + size + before
         || (c >= MIN_FAT16 && left < if c >= MIN_FAT32 then MIN_FAT32 else MIN_FAT16)
  {
    hide AlignUp, FirstFatSize, ClusterSize, BlockSize, PowerOfTwo;
  }

  /** The FAT planned before alignment has the least number of sectors that holds the entries of c + 2 clusters, of 3, 4 or
      8 half bytes each. */
  lemma FatIsLeast(c: nat, t: SubType)
    requires t.Fat32? ==> 4 * c + 519 < W
    ensures
      var halves := (c + 2) * (match t case Fat12 => 3 case Fat16 => 4 case Fat32 => 8);
      var f := FirstFatSize(t, c);
      f > 0 && 1024 * (f - 1) < halves <= 1024 * f
  {
    match t
    case Fat32 => LeastSectors(4 * c + 8);
    case Fat16 => LeastSectors(2 * c + 4);
    case Fat12 =>
      var bytes := (3 * c + 1) / 2 + 3;
      assert 2 * bytes - 1 <= 3 * c + 6 <= 2 * bytes;
      LeastSectors(bytes);
  }

  lemma LeastSectors(bytes: nat)
    requires bytes > 0
    ensures 512 * ((bytes + 511) / 512) - 512 < bytes <= 512 * ((bytes + 511) / 512)
  {
  }

  lemma {:induction false} UpTo15(k: nat)
    requires k <= 15
    ensures Pow2(k) <= 32768
  {
    assert Pow2(15) == 32768 by {
      assert Pow2(4) == 16 && Pow2(8) == 256 && Pow2(12) == 4096;
    }
    Pow2Grows(k, 15);
  }

  lemma {:induction false} Pow2Grows(j: nat, k: nat)
    requires j <= k
    ensures Pow2(j) <= Pow2(k)
    decreases k
  {
    if j < k {
      Pow2Grows(j, k - 1);
    }
  }

  lemma FatSizes(p: Plan)
    requires Planned(p)
    ensures p.nFat < 0x80_0000 && (!p.subType.Fat32? ==> 0 < p.nFat < 0x1_0000)
    ensures 0 < p.au < 0x100 && 0 < p.nRsv < 0x1_0000 && p.nVol < W
    ensures p.nRsv + p.nFat + p.nDir < W
  {
    OneDiv(p.au, p.nVol);
    FirstSizes(p.subType, p.nVol / p.au);
    hide Size, FirstFatSize, SubTypeOf;
  }

  lemma OneDiv(n: nat, x: nat)
    requires Size(n)
    ensures x / n <= x
  {
  }

  lemma FirstSizes(t: SubType, c: nat)
    requires t == SubTypeOf(c) && c < W
    ensures FirstFatSize(t, c) < 0x80_0000 && (!t.Fat32? ==> 0 < FirstFatSize(t, c) < 0x8000)
  {
  }

  /** The boot record of a plan says what the plan says. */
  lemma RecordSays(p: Plan, s: seq<byte>)
    requires Planned(p) && |s| == 512 && Fields(s, p)
    ensures IsBootRecord(s) && TotalOf(s) == p.nVol && FatSizeOf(s) == p.nFat && SystemOf(s) == p.nRsv + p.nFat + p.nDir
    ensures ClustersOf(s) == if p.nVol < p.nRsv + p.nFat + p.nDir then 0 else (p.nVol - p.nRsv - p.nFat - p.nDir) / p.au
  {
    FatSizes(p);
    hide Size, FirstFatSize, LdWord, LdDword, HasFat, SubTypeOf;
    Small(p.nFat);
    Small(p.nRsv + p.nFat + p.nDir);
  }

  lemma Planned32(c: nat, k: nat)
    requires k <= c && 4 * c + 519 < W
    ensures FirstFatSize(Fat32, c) >= NeededFat(Fat32, k + 2) && 512 * FirstFatSize(Fat32, c) >= 4 * (k + 2)
  {
    Small(4 * (k + 2));
    Small(4 * (k + 2) + 511);
    Small(4 * c + 519);
    Sectors(4 * k + 519, 4 * c + 519);
  }

  lemma Sectors(a: nat, b: nat)
    requires a <= b
    ensures a / 512 <= b / 512 && 512 * (b / 512) + 511 >= b
  {
  }

  lemma Planned16(c: nat, k: nat)
    requires k <= c < MIN_FAT32
    ensures FirstFatSize(Fat16, c) >= NeededFat(Fat16, k + 2) && 512 * FirstFatSize(Fat16, c) >= 2 * (k + 2)
  {
  }

  lemma Planned12(c: nat, k: nat)
    requires k <= c < MIN_FAT32
    ensures FirstFatSize(Fat12, c) >= NeededFat(Fat12, k + 2) && 512 * FirstFatSize(Fat12, c) >= k + 1 + (k + 1) / 2 + 2
  {
    var n := k + 2;
    Small(3 * n);
    var bytes := 3 * n / 2 + n % 2;
    Small(bytes + 511);
    Bytes12(k);
    var planned := (3 * c + 1) / 2 + 3;
    assert bytes <= (3 * k + 1) / 2 + 3 <= planned;
    assert 512 * ((planned + 511) / 512) >= planned;
  }

  /** The bytes of k + 2 packed entries, k being 2 * a + b. */
  lemma Bytes12(k: nat)
    ensures 3 * (k + 2) / 2 + (k + 2) % 2 == (3 * k + 1) / 2 + 3
    ensures k + 1 + (k + 1) / 2 + 2 <= (3 * k + 1) / 2 + 3
  {
    var a, b := k / 2, k % 2;
    assert k == 2 * a + b;
    Halves(3 * a + 3, 3 * (k + 2) - 2 * (3 * a + 3));
    Halves(3 * a, 3 * k + 1 - 6 * a);
    Halves(a, k + 1 - 2 * a);
    assert (k + 2) % 2 == b;
  }

  /** Half of 2 * q + r for a small r. */
  lemma Halves(q: nat, r: int)
    requires 0 <= r <= 4
    ensures (2 * q + r) / 2 == q + if r >= 4 then 2 else if r >= 2 then 1 else 0
  {
  }

  /** The FAT planned for c clusters is enough for fewer. */
  lemma PlannedIsNeeded(t: SubType, c: nat, k: nat, f: nat)
    requires k <= c < W && f >= FirstFatSize(t, c) && (t.Fat32? ==> 4 * c + 519 < W) && (!t.Fat32? ==> c < MIN_FAT32)
    ensures f >= NeededFat(t, k + 2) && Enough(t, k + 2, f)
  {
    hide FirstFatSize, NeededFat;
    match t
    case Fat32 => Planned32(c, k);
    case Fat16 => Planned16(c, k);
    case Fat12 => Planned12(c, k);
  }

  lemma LeftClusters(n: nat, total: nat, used: nat)
    requires Size(n) && used <= total
    ensures total / n - used - 1 <= (total - used) / n <= total / n
    ensures (total - used) / n > 0 <==> total - used >= n
  {
  }

  /** A FAT whose size wrapped is too small. */
  lemma WrappedIsTooSmall(c: nat, k: nat, rsv: nat, f: nat)
    requires c < W && 4 * c + 519 >= W && f == FirstFatSize(Fat32, c) && rsv < 0x1_0000 && k + rsv + f + 1 >= c
    ensures !Enough(Fat32, k + 2, f)
  {
  }

  /** With a cluster fitting, the record is accepted as the plan meant it, when the FAT is large enough. */
  lemma FittingParses(p: Plan, s: seq<byte>)
    requires Planned(p) && |s| == 512 && Fields(s, p) && Fits(p)
    ensures NoWrap(p) ==> Parse(s, p.bVol) == Some(Meant(p)) && Enough(p.subType, p.clusters + 2, p.nFat)
    ensures !NoWrap(p) ==> !Enough(p.subType, p.clusters + 2, p.nFat)
  {
    hide FirstFatSize, NeededFat, TotalOf, SystemOf, FatSizeOf, ClustersOf, Fields, Parse, Enough, Meant, LdWord,
      LdDword, IsBootRecord, HasFat;
    var c, used := p.nVol / p.au, p.nRsv + p.nFat + p.nDir;
    FatSizes(p);
    LeftClusters(p.au, p.nVol, used);
    Small(p.nVol - used);
    OneDiv(p.au, p.nVol);
    assert p.clusters == (p.nVol - used) / p.au;
    if NoWrap(p) {
      PlannedIsNeeded(p.subType, c, p.clusters, p.nFat);
      ParsesAsMeant(p, s);
    } else {
      WrappedIsTooSmall(c, p.clusters, p.nRsv, p.nFat);
    }
  }

  lemma ParsesAsMeant(p: Plan, s: seq<byte>)
    requires Planned(p) && |s| == 512 && Fields(s, p) && Fits(p)
    requires 0 < p.clusters == (p.nVol - p.nRsv - p.nFat - p.nDir) / p.au && p.clusters <= p.nVol / p.au
    requires p.nFat >= NeededFat(p.subType, p.clusters + 2)
    ensures Parse(s, p.bVol) == Some(Meant(p))
  {
    FatSizes(p);
    RecordSays(p, s);
    OneDiv(p.au, p.nVol - p.nRsv - p.nFat - p.nDir);
    assert SubTypeOf(p.clusters) == p.subType;
    assert p.nRsv > 0 && p.bVol <= 63 && p.nRsv + p.nFat + p.nDir < W - 63 && p.clusters < W - 2;
    hide Planned, Fields, Parse, Fits, TotalOf, SystemOf, FatSizeOf, NeededFat, SubTypeOf, FirstFatSize, IsBootRecord,
      ClustersOf;
    ParsesTo(p, s);
  }

  lemma ParsesTo(p: Plan, s: seq<byte>)
    requires |s| == 512 && IsBootRecord(s) && CommonOk(s, p) && OwnOk(s, p) && Size(p.au) && p.nRsv > 0 && p.bVol <= 63
    requires TotalOf(s) == p.nVol && FatSizeOf(s) == p.nFat && SystemOf(s) == p.nRsv + p.nFat + p.nDir <= p.nVol
    requires p.nRsv + p.nFat + p.nDir < W - 63 && p.clusters < W - 2
    requires 0 < p.clusters == (p.nVol - p.nRsv - p.nFat - p.nDir) / p.au && SubTypeOf(p.clusters) == p.subType
    requires p.nFat >= NeededFat(p.subType, p.clusters + 2)
    ensures Parse(s, p.bVol) == Some(Meant(p))
  {
    hide TotalOf, SystemOf, FatSizeOf, NeededFat, SubTypeOf, LdWord, LdDword, IsBootRecord;
    assert (TotalOf(s) - SystemOf(s)) / s[13] == p.clusters && FatSizeOf(s) * s[16] == p.nFat;
    Small(p.clusters + 2);
    Small(p.nFat);
    Small(p.bVol + p.nRsv);
    Small(p.bVol + p.nRsv + p.nFat);
    Small(p.bVol + p.nRsv + p.nFat + p.nDir);
    Small(p.bVol + 1);
  }

  /** Making and mounting undo each other: the record that f_mkfs writes for a plan is accepted by mounting as the volume
      that was meant, with every entry in the FAT, exactly if a cluster is left after alignment and the FAT size did not
      wrap. */
  lemma Recovered(nDisk: dword, sfd: bool, au: dword, block: dword, md: byte, time: dword)
    requires PlanFor(nDisk, sfd, au, block).Some?
    ensures
      var p := PlanFor(nDisk, sfd, au, block).value;
      && p.au > 0
      && (Parse(BootRecord(p, md, time), p.bVol) == Some(Meant(p)) && Enough(p.subType, p.clusters + 2, p.nFat)
          <==> Fits(p) && NoWrap(p))
  {
    hide PlanFor, BootRecord, Planned, Parse, Fields, Enough, Meant, Fits, NoWrap;
    PlanSizes(nDisk, sfd, au, block);
    var p := PlanFor(nDisk, sfd, au, block).value;
    FatSizes(p);
    RecordFields(p, md, time);
    var s := BootRecord(p, md, time);
    if Fits(p) {
      FittingParses(p, s);
    } else {
      UnfittingFails(p, s);
    }
  }

  lemma UnfittingFails(p: Plan, s: seq<byte>)
    requires Planned(p) && |s| == 512 && Fields(s, p) && !Fits(p)
    ensures Parse(s, p.bVol) == None
  {
    FatSizes(p);
    RecordSays(p, s);
    if p.nVol >= p.nRsv + p.nFat + p.nDir {
      LeftClusters(p.au, p.nVol, p.nRsv + p.nFat + p.nDir);
    }
    hide TotalOf, SystemOf, FatSizeOf, NeededFat, SubTypeOf, FirstFatSize, LdWord, LdDword, IsBootRecord, HasFat;
  }

  /** The volume that was meant meets what the FAT functions need; the end mark may be one of its clusters. */
  lemma MeantIsOk(nDisk: dword, sfd: bool, au: dword, block: dword)
    requires PlanFor(nDisk, sfd, au, block).Some?
    ensures
      var p := PlanFor(nDisk, sfd, au, block).value;
      p.au > 0 && (Fits(p) && NoWrap(p) ==>
        Meant(p).DataOk(nDisk) && Meant(p).Ok(nDisk) &&
          (Meant(p).Marked() <==> p.clusters + 2 <= Cut(p.subType, END_OF_CHAIN)))
  {
    hide PlanFor, SubTypeOf, FirstFatSize, NeededFat, Cut, Enough, Geometry.Ok, Geometry.DataOk;
    PlanSizes(nDisk, sfd, au, block);
    var p := PlanFor(nDisk, sfd, au, block).value;
    FatSizes(p);
    if Fits(p) && NoWrap(p) {
      MeantClusters(p);
      MeantArea(p, nDisk);
    }
  }

  /** The clusters of a plan are what the sectors left hold, and its FAT is enough for them. */
  lemma MeantClusters(p: Plan)
    requires Planned(p) && p.au > 0 && Fits(p) && NoWrap(p)
    ensures 0 < p.clusters == (p.nVol - p.nRsv - p.nFat - p.nDir) / p.au && Enough(p.subType, p.clusters + 2, p.nFat)
  {
    hide FirstFatSize, NeededFat, Enough;
    var used := p.nRsv + p.nFat + p.nDir;
    OneDiv(p.au, p.nVol);
    LeftClusters(p.au, p.nVol, used);
    Small(p.nVol - used);
    PlannedIsNeeded(p.subType, p.nVol / p.au, p.clusters, p.nFat);
  }

  lemma MeantArea(p: Plan, nDisk: dword)
    requires Size(p.au) && Fits(p) && p.nRsv > 0 && (p.subType.Fat32? ==> p.nRsv > 1) && p.bVol + p.nVol == nDisk
    requires 0 < p.clusters == (p.nVol - p.nRsv - p.nFat - p.nDir) / p.au && Enough(p.subType, p.clusters + 2, p.nFat)
    ensures Meant(p).DataOk(nDisk) && Meant(p).Ok(nDisk)
  {
    DivTimes(p.au, p.nVol - p.nRsv - p.nFat - p.nDir);
    hide Cut, Past;
  }

  /** f_mkfs accepts a disk of 512 sectors on which no cluster is left after alignment, which mounting then refuses. */
  lemma TooSmallIsMade()
    ensures PlanFor(512, true, 0, 512).Some? && !Fits(PlanFor(512, true, 0, 512).value)
  {
    hide AlignUp, Unit, ClusterSize, PowerOfTwo;
    SmallestUnit(512);
    Align512(35);
  }

  lemma SmallestUnit(n: nat)
    requires n < 2000
    ensures ClusterSize(0, n) == 1
  {
    var vs: nat := n / 2000;
    assert forall i: nat :: i < 10 ==> vs < VST[i];
    assert Unit(vs, 9) == Unit(vs, 10) == 512;
    assert Unit(vs, 7) == Unit(vs, 8) == 512;
    assert Unit(vs, 5) == Unit(vs, 6) == 512;
    assert Unit(vs, 3) == Unit(vs, 4) == 512;
    assert Unit(vs, 1) == Unit(vs, 2) == 512;
  }

  /** Asked for clusters of one sector on a disk of 2 TB, it computes a FAT size that wrapped. */
  lemma WrappedIsMade()
    ensures PlanFor(0xFFFF_FFFF, true, 512, 512).Some? && PlanFor(0xFFFF_FFFF, true, 512, 512).value.au == 1
    ensures !NoWrap(PlanFor(0xFFFF_FFFF, true, 512, 512).value)
  {
    hide AlignUp, BitAnd;
    assert ClusterSize(512, 0xFFFF_FFFF) == 1;
    hide ClusterSize, Unit;
  }

  /** Asked for clusters of one sector on a disk of 256 GB, it makes a volume on which the end mark is a cluster. */
  lemma EndMarkIsMade()
    ensures
      var p := PlanFor(0x2000_0000, true, 512, 512);
      p.Some? && Fits(p.value) && p.value.au == 1 && NoWrap(p.value) && 2 <= END_OF_CHAIN < Meant(p.value).nFatent
  {
    hide AlignUp, BitAnd;
    assert ClusterSize(512, 0x2000_0000) == 1;
    Align512(4194337);
    assert FirstFatSize(Fat32, 0x2000_0000) == 4194305;
    assert SubTypeOf(0x2000_0000) == Fat32;
    hide ClusterSize, FirstFatSize, Unit, SubTypeOf;
    assert PlanFor(0x2000_0000, true, 512, 512) == Some(Plan(Fat32, 1, 0, 0x2000_0000, 511, 4194305, 0, 532676096));
  }
}
