/** A mounted FAT volume: the write-back sector window, FAT access through it, and cluster allocation. */
module FatVolume {
  import opened Bytes
  import opened Common
  import opened FatChains
  import opened FatCodec

  const UNKNOWN := 0xFFFF_FFFF

  /** The fields of FATFS that mounting sets and nothing changes afterwards. Sector numbers are absolute. */
  datatype Geometry = Geometry(
    subType: SubType,
    csize: nat,      // sectors per cluster
    nFats: nat,      // copies of the FAT
    fatbase: nat,    // first sector of the first FAT
    fsize: nat,      // sectors per FAT
    nRootdir: nat,   // entries of the root table (FAT12 and FAT16)
    dirbase: nat,    // first sector (FAT12, FAT16) or first cluster (FAT32) of the root directory
    database: nat,   // first sector of cluster 2
    nFatent: nat,    // number of clusters + 2
    fsiSector: nat)
  {
    /** Sectors of all FAT copies together. */
    function FatArea(): nat {
      if nFats == 2 then 2 * fsize else fsize
    }

    predicate Ok(sectors: nat) {
      && 1 <= nFats <= 2
      && 1 <= fatbase
      && 3 <= nFatent < 0x1_0000_0000
      && Past(subType, nFatent - 1) <= 512 * fsize
      && fatbase + FatArea() <= database <= sectors <= 0x1_0000_0000
      && (subType.Fat32? ==> 0 < fsiSector < fatbase)
    }

    /** The end mark is no cluster. */
    predicate Marked() {
      nFatent <= Cut(subType, END_OF_CHAIN)
    }

    /** The clusters lie on the medium. */
    predicate DataOk(sectors: nat) {
      && csize in {1, 2, 4, 8, 16, 32, 64, 128}
      && database + (nFatent - 2) * csize <= sectors
    }

    predicate InFat(sector: nat) {
      fatbase <= sector < fatbase + fsize
    }
  }

  /** disk_write: the device holds `d` from byte `off` on. */
  function Splice(s: seq<byte>, off: nat, d: seq<byte>): (r: seq<byte>)
    requires off + |d| <= |s|
    ensures |r| == |s|
    ensures forall k :: 0 <= k < |s| ==> r[k] == if off <= k < off + |d| then d[k - off] else s[k]
  {
    seq(|s|, k requires 0 <= k < |s| => if off <= k < off + |d| then d[k - off] else s[k])
  }

  lemma DivMod512(a: nat, q: nat, r: nat)
    requires a == 512 * q + r && r < 512
    ensures a / 512 == q && a % 512 == r
  {
  }

  /** FAT16 and FAT32 entries do not straddle sectors. */
  lemma Locate(c: nat)
    ensures c * 2 % 512 == 2 * (c % 256) && 2 * c == 512 * (c / 256) + 2 * (c % 256)
    ensures c * 4 % 512 == 4 * (c % 128) && 4 * c == 512 * (c / 128) + 4 * (c % 128)
  {
    DivMod512(2 * c, c / 256, 2 * (c % 256));
    DivMod512(4 * c, c / 128, 4 * (c % 128));
  }

  function Sector(disk: seq<byte>, s: nat): (r: seq<byte>)
    requires s < |disk| / 512
    ensures |r| == 512
  {
    disk[512 * s..512 * s + 512]
  }

  /** Writing a window to its sector and, for a sector of the first FAT, to the second copy. */
  function Flushed(g: Geometry, disk: seq<byte>, w: nat, win: seq<byte>): (r: seq<byte>)
    requires |win| == 512 && g.Ok(|disk| / 512) && w < |disk| / 512
    ensures |r| == |disk|
  {
    var d := Splice(disk, 512 * w, win);
    if w < g.fatbase + g.fsize && g.nFats == 2 then Splice(d, 512 * (w + g.fsize), win) else d
  }

  /** The bytes of copy number i of the FAT. */
  function Copy(g: Geometry, disk: seq<byte>, i: nat): (r: seq<byte>)
    requires g.Ok(|disk| / 512) && i < g.nFats
    ensures |r| == 512 * g.fsize
  {
    var a := g.fatbase + if i == 0 then 0 else g.fsize;
    disk[512 * a..512 * (a + g.fsize)]
  }

  lemma SectorOfFat(g: Geometry, disk: seq<byte>, s: nat)
    requires g.Ok(|disk| / 512) && s < g.fsize
    ensures Sector(disk, g.fatbase + s) == Copy(g, disk, 0)[512 * s..512 * s + 512]
  {
  }

  /** All copies of the FAT agree. */
  ghost predicate Mirrored(g: Geometry, disk: seq<byte>)
    requires g.Ok(|disk| / 512)
  {
    g.nFats == 2 ==> Copy(g, disk, 1) == Copy(g, disk, 0)
  }

  /** A sector the window may hold dirty: one of the first FAT, or one past all copies. */
  predicate Writable(g: Geometry, w: nat) {
    g.InFat(w) || g.fatbase + g.FatArea() <= w
  }

  lemma FlushedKeepsMirrors(g: Geometry, disk: seq<byte>, w: nat, win: seq<byte>)
    requires |win| == 512 && g.Ok(|disk| / 512) && w < |disk| / 512
    requires Writable(g, w)
    ensures Mirrored(g, disk) ==> Mirrored(g, Flushed(g, disk, w, win))
    ensures Sector(Flushed(g, disk, w, win), w) == win
  {
    hide Flushed, Copy;
    var r := Flushed(g, disk, w, win);
    FlushedSector(g, disk, w, win);
    if g.nFats == 2 && Mirrored(g, disk) {
      forall k | 0 <= k < 512 * g.fsize
        ensures Copy(g, r, 1)[k] == Copy(g, r, 0)[k]
      {
        FlushedByte(g, disk, w, win, k);
      }
    }
  }

  lemma FlushedSector(g: Geometry, disk: seq<byte>, w: nat, win: seq<byte>)
    requires |win| == 512 && g.Ok(|disk| / 512) && w < |disk| / 512 && Writable(g, w)
    ensures Sector(Flushed(g, disk, w, win), w) == win
  {
  }

  lemma FlushedByte(g: Geometry, disk: seq<byte>, w: nat, win: seq<byte>, k: nat)
    requires |win| == 512 && g.Ok(|disk| / 512) && w < |disk| / 512 && Writable(g, w)
    requires g.nFats == 2 && k < 512 * g.fsize && Copy(g, disk, 1)[k] == Copy(g, disk, 0)[k]
    ensures Copy(g, Flushed(g, disk, w, win), 1)[k] == Copy(g, Flushed(g, disk, w, win), 0)[k]
  {
  }

  /** A write-back to the first FAT makes the copies agree in its sector, whatever they were. */
  lemma FlushedReaches(g: Geometry, disk: seq<byte>, w: nat, win: seq<byte>)
    requires |win| == 512 && g.Ok(|disk| / 512) && g.InFat(w) && g.nFats == 2
    ensures w + g.fsize < |disk| / 512
    ensures Sector(Flushed(g, disk, w, win), w) == Sector(Flushed(g, disk, w, win), w + g.fsize) == win
  {
  }

  lemma FlushedTwice(g: Geometry, disk: seq<byte>, w: nat, a: seq<byte>, b: seq<byte>)
    requires |a| == |b| == 512 && g.Ok(|disk| / 512) && w < |disk| / 512
    ensures Flushed(g, Flushed(g, disk, w, a), w, b) == Flushed(g, disk, w, b)
  {
  }

  /** The sectors outside all FAT copies: those before the first FAT, then those after the last copy. */
  function Rest(g: Geometry, disk: seq<byte>): (r: seq<byte>)
    requires g.Ok(|disk| / 512)
  {
    disk[..512 * g.fatbase] + disk[512 * (g.fatbase + g.FatArea())..]
  }

  /** Writing to a sector of the first FAT changes nothing outside the FAT copies. */
  lemma FlushedRest(g: Geometry, disk: seq<byte>, s: nat, win: seq<byte>)
    requires g.Ok(|disk| / 512) && s < g.fsize && |win| == 512
    ensures Rest(g, Flushed(g, disk, g.fatbase + s, win)) == Rest(g, disk)
  {
  }

  /** Changing byte i of a FAT sector changes that byte of the FAT. */
  lemma FlushedFat(g: Geometry, disk: seq<byte>, s: nat, i: nat, b: byte)
    requires g.Ok(|disk| / 512) && s < g.fsize && i < 512
    ensures
      var r := Flushed(g, disk, g.fatbase + s, Sector(disk, g.fatbase + s)[i := b]);
      Copy(g, r, 0) == Copy(g, disk, 0)[512 * s + i := b]
  {
    var r := Flushed(g, disk, g.fatbase + s, Sector(disk, g.fatbase + s)[i := b]);
    var was, now := Copy(g, disk, 0), Copy(g, r, 0);
    forall k | 0 <= k < 512 * g.fsize
      ensures now[k] == if k == 512 * s + i then b else was[k]
    {
      assert now[k] == r[512 * g.fatbase + k] && was[k] == disk[512 * g.fatbase + k];
    }
  }

  /** The window invariant: a clean window equals its sector, a dirty one is on a writable sector, and the
      FAT copies on the medium agree if they did so at first. */
  ghost predicate Coherent(g: Geometry, disk: seq<byte>, w: nat, dirty: bool, win: seq<byte>, agree: bool) {
    && |disk| % 512 == 0
    && g.Ok(|disk| / 512)
    && |win| == 512
    && w < |disk| / 512
    && (dirty ==> Writable(g, w))
    && (!dirty && w != 0 ==> win == Sector(disk, w))
    && (agree ==> Mirrored(g, disk))
  }

  /** A window write-back does not reach data sectors other than its own. */
  lemma FlushedFar(g: Geometry, disk: seq<byte>, w: nat, win: seq<byte>, a: nat, b: nat)
    requires |win| == 512 && g.Ok(|disk| / 512) && w < |disk| / 512
    requires 512 * g.database <= a <= b <= |disk| && (512 * w + 512 <= a || b <= 512 * w)
    ensures Flushed(g, disk, w, win)[a..b] == disk[a..b]
  {
  }

  /** Writing data sectors that the window does not hold keeps the window coherent and the FAT as it is. */
  lemma SpliceKeeps(g: Geometry, disk: seq<byte>, w: nat, dirty: bool, win: seq<byte>, agree: bool, a: nat,
                    d: seq<byte>)
    requires Coherent(g, disk, w, dirty, win, agree)
    requires 512 * g.database <= a && a + |d| <= |disk| && a % 512 == 0 && |d| % 512 == 0
    requires 512 * w + 512 <= a || a + |d| <= 512 * w
    ensures Coherent(g, Splice(disk, a, d), w, dirty, win, agree)
    ensures Flushed(g, Splice(disk, a, d), w, win) == Splice(Flushed(g, disk, w, win), a, d)
    ensures Copy(g, Splice(disk, a, d), 0) == Copy(g, disk, 0)
    ensures Copy(g, Splice(Flushed(g, disk, w, win), a, d), 0) == Copy(g, Flushed(g, disk, w, win), 0)
  {
    hide Copy, Mirrored;
    SpliceFar(g, disk, a, d);
    SpliceFar(g, Flushed(g, disk, w, win), a, d);
    var r := Splice(disk, a, d);
    assert r[512 * w..512 * w + 512] == disk[512 * w..512 * w + 512];
  }

  lemma SpliceFar(g: Geometry, disk: seq<byte>, a: nat, d: seq<byte>)
    requires g.Ok(|disk| / 512) && 512 * (g.fatbase + g.FatArea()) <= a && a + |d| <= |disk|
    ensures Copy(g, Splice(disk, a, d), 0) == Copy(g, disk, 0)
    ensures Mirrored(g, Splice(disk, a, d)) <==> Mirrored(g, disk)
  {
    var r := Splice(disk, a, d);
    assert Copy(g, r, 0) == Copy(g, disk, 0);
    if g.nFats == 2 {
      assert Copy(g, r, 1) == Copy(g, disk, 1);
    }
  }

  /** Changing bytes of a window on a sector past the FAT copies changes these bytes of the disk. */
  lemma StoreIs(g: Geometry, disk: seq<byte>, w: nat, win: seq<byte>, off: nat, d: seq<byte>)
    requires g.Ok(|disk| / 512) && |win| == 512 && off + |d| <= 512
    requires g.fatbase + g.FatArea() <= w < |disk| / 512
    ensures Flushed(g, disk, w, Splice(win, off, d)) == Splice(Flushed(g, disk, w, win), 512 * w + off, d)
    ensures win == Sector(disk, w) ==> Flushed(g, disk, w, win) == disk
  {
  }

  /** The disk with n sectors from s on cleared. */
  function ZeroedTo(disk: seq<byte>, s: nat, n: nat): (r: seq<byte>)
    requires 512 * (s + n) <= |disk|
    ensures |r| == |disk|
  {
    Splice(disk, 512 * s, seq(512 * n, _ => 0))
  }

  lemma ZeroedNone(disk: seq<byte>, s: nat)
    requires 512 * s <= |disk|
    ensures ZeroedTo(disk, s, 0) == disk
  {
  }

  lemma ZeroedOne(g: Geometry, disk: seq<byte>, s: nat, n: nat, zero: seq<byte>)
    requires g.Ok(|disk| / 512) && g.fatbase + g.FatArea() <= s && s + n < |disk| / 512 && zero == seq(512, _ => 0)
    requires Copy(g, ZeroedTo(disk, s, n), 0) == Copy(g, disk, 0)
    ensures Flushed(g, ZeroedTo(disk, s, n), s + n, zero) == ZeroedTo(disk, s, n + 1)
    ensures Mirrored(g, ZeroedTo(disk, s, n)) ==> Mirrored(g, ZeroedTo(disk, s, n + 1))
    ensures Copy(g, ZeroedTo(disk, s, n + 1), 0) == Copy(g, disk, 0)
  {
    var d := ZeroedTo(disk, s, n);
    assert Splice(d, 512 * (s + n), zero) == ZeroedTo(disk, s, n + 1);
    SpliceFar(g, d, 512 * (s + n), zero);
  }

  lemma ZeroedFirst(disk: seq<byte>, s: nat, n: nat)
    requires 0 < n && s + n <= |disk| / 512
    ensures Sector(ZeroedTo(disk, s, n), s) == seq(512, _ => 0)
  {
  }

  /** Bytes of an entry of FAT16 or FAT32. */
  function Width(t: SubType): nat {
    if t == Fat16 then 2 else 4
  }

  /** The scan of the FAT stands before entry k: sect sectors were read, and i bytes, left entries, of the last one are
      not counted yet, from offset p on. */
  predicate Scan(t: SubType, fsize: nat, k: nat, left: nat, i: nat, p: nat, sect: nat) {
    && i == Width(t) * left <= 512
    && k + left == (if t == Fat16 then 256 * sect else 128 * sect)
    && (i > 0 ==> 0 < sect <= fsize && p == 512 - i)
  }

  lemma ScanStart(t: SubType, fsize: nat)
    ensures Scan(t, fsize, 0, 0, 0, 0, 0)
  {
  }

  lemma ScanFill(t: SubType, fsize: nat, k: nat, left: nat, p: nat, sect: nat)
    requires t != Fat12 && Scan(t, fsize, k, left, 0, p, sect) && Past(t, k) <= 512 * fsize
    ensures sect < fsize && Scan(t, fsize, k, if t == Fat16 then 256 else 128, 512, 0, sect + 1)
  {
  }

  lemma ScanStep(t: SubType, fsize: nat, k: nat, left: nat, i: nat, p: nat, sect: nat)
    requires t != Fat12 && Scan(t, fsize, k, left, i, p, sect) && i > 0
    ensures left > 0 && i >= Width(t) && p + Width(t) <= 512 && 0 < sect <= fsize
    ensures 512 * (sect - 1) + p == First(t, k) && Past(t, k) <= 512 * sect
    ensures Scan(t, fsize, k + 1, left - 1, i - Width(t), p + Width(t), sect)
  {
  }

  class Volume {
    const g: Geometry
    const win: array<byte>
    var disk: seq<byte>
    var winsect: nat
    var wflag: bool
    var fsiFlag: bool
    var freeClust: dword   // number of free clusters, or UNKNOWN
    var lastClust: dword   // the last allocated cluster
    ghost const agree: bool // did the FAT copies agree when the volume was mounted?

    /** A freshly mounted volume: no sector in the window, and the allocation information that mounting found. */
    constructor (geometry: Geometry, medium: seq<byte>, free: dword, last: dword)
      requires |medium| % 512 == 0 && geometry.Ok(|medium| / 512)
      ensures agree <==> Mirrored(geometry, medium)
      ensures Valid() && g == geometry && disk == Logical() == medium && fresh(win)
      ensures winsect == 0 && !wflag && !fsiFlag && freeClust == free && lastClust == last
      ensures FatBytes() == Copy(geometry, medium, 0)
    {
      g, disk := geometry, medium;
      win := new byte[512](_ => 0);
      winsect, wflag, fsiFlag, freeClust, lastClust := 0, false, false, free, last;
      agree := Mirrored(geometry, medium);
    }

    ghost predicate Valid()
      reads `disk, `winsect, `wflag, win
    {
      // An equation, so that callers prove it as one fact and not conjunct by conjunct.
      win.Length == 512 && Coherent(g, disk, winsect, wflag, win[..], agree) == true
    }

    /** The disk as the program sees it: the medium overlaid by the dirty window. */
    function Logical(): (r: seq<byte>)
      reads `disk, `winsect, `wflag, win
      requires Valid()
      ensures |r| == |disk|
    {
      if wflag then Flushed(g, disk, winsect, win[..]) else disk
    }

    /** Writes the window to its sector, then to the mirror copies if it is a FAT sector. */
    method WriteCopies()
      requires Valid() && Writable(g, winsect)
      modifies this`disk
      ensures disk == Flushed(g, old(disk), winsect, win[..])
    {
      hide Mirrored, Copy, Sector, Splice, Past;
      ghost var first := Splice(disk, 512 * winsect, win[..]);
      ghost var both := Flushed(g, disk, winsect, win[..]);
      var wsect := winsect;
      disk := Splice(disk, 512 * wsect, win[..]);
      if wsect < g.fatbase + g.fsize {
        var nf := g.nFats;
        while nf > 1
          invariant nf == g.nFats || (g.nFats == 2 && nf == 1)
          invariant wsect == winsect + if nf == g.nFats then 0 else g.fsize
          invariant disk == if nf == g.nFats then first else both
        {
          wsect := wsect + g.fsize;
          disk := Splice(disk, 512 * wsect, win[..]);
          nf := nf - 1;
        }
      }
    }

    /** The dirty window reaches the medium. */
    method WriteBack()
      requires Valid() && wflag
      modifies this`disk, this`wflag
      ensures Valid() && !wflag && disk == old(Logical())
    {
      FlushedKeepsMirrors(g, disk, winsect, win[..]);
      WriteCopies();
      wflag := false;
    }

    /** Fills a clean window from the medium. */
    method Load(sector: nat)
      requires Valid() && !wflag && sector < |disk| / 512
      modifies this`winsect, win
      ensures Valid() && winsect == sector
    {
      forall i | 0 <= i < 512 {
        win[i] := disk[512 * sector + i];
      }
      winsect := sector;
    }

    /** Brings a sector into the window, writing a dirty window back to every FAT copy first.
        Sector 0 only asks for the write-back. */
    method MoveWindow(sector: nat)
      requires Valid() && sector < |disk| / 512
      modifies this`disk, this`winsect, this`wflag, win
      ensures Valid()
      ensures Logical() == old(Logical())
      ensures sector != 0 ==> winsect == sector
      ensures sector == 0 ==> winsect == old(winsect) && win[..] == old(win[..])
      ensures winsect != old(winsect) || sector == 0 ==> !wflag
      ensures winsect == old(winsect) && sector != 0 ==> wflag == old(wflag) && win[..] == old(win[..])
    {
      if winsect != sector {
        if wflag {
          WriteBack();
        }
        if sector != 0 {
          Load(sector);
        }
      }
    }

    lemma WindowIsLogical()
      requires Valid() && winsect != 0
      ensures win[..] == Sector(Logical(), winsect)
    {
    }

    /** The bytes of the first FAT, as the program sees them. */
    function FatBytes(): (r: seq<byte>)
      reads `disk, `winsect, `wflag, win
      requires Valid()
      ensures |r| == 512 * g.fsize
    {
      Copy(g, Logical(), 0)
    }

    /** The entries of all clusters, the two reserved ones included. */
    function Fat(): (r: seq<nat>)
      reads `disk, `winsect, `wflag, win
      requires Valid()
      ensures |r| == g.nFatent
    {
      Entries(g.subType, FatBytes(), g.nFatent)
    }

    /** What the program sees outside the FAT copies. */
    ghost function Outside(): seq<byte>
      reads `disk, `winsect, `wflag, win
      requires Valid()
    {
      Rest(g, Logical())
    }

    lemma OutsideIs()
      requires Valid()
      ensures g.Ok(|Logical()| / 512) && Outside() == Rest(g, Logical())
      ensures |Fat()| == g.nFatent && |Logical()| == |disk|
    {
    }

    lemma FatAt(c: nat)
      requires Valid() && c < g.nFatent
      ensures Past(g.subType, c) <= |FatBytes()| == 512 * g.fsize
      ensures Fat()[c] == Get(g.subType, FatBytes(), c)
    {
    }

    /** Brings sector s of the first FAT into the window. */
    method FatSector(s: nat)
      requires Valid() && s < g.fsize
      modifies this`disk, this`winsect, this`wflag, win
      ensures Valid() && Logical() == old(Logical())
      ensures FatBytes() == old(FatBytes()) && Fat() == old(Fat()) && Outside() == old(Outside())
      ensures winsect == g.fatbase + s && win.Length == 512
      ensures win[..] == FatBytes()[512 * s..512 * s + 512]
    {
      hide Flushed, Mirrored, Copy, Volume.Logical;
      MoveWindow(g.fatbase + s);
      WindowIsLogical();
      SectorOfFat(g, Logical(), s);
    }

    /** Reads one byte of the FAT through the window. */
    method FatByte(k: nat) returns (b: byte)
      requires Valid() && k < 512 * g.fsize
      modifies this`disk, this`winsect, this`wflag, win
      ensures Valid() && Logical() == old(Logical()) && winsect == g.fatbase + k / 512
      ensures FatBytes() == old(FatBytes()) && Fat() == old(Fat()) && Outside() == old(Outside())
      ensures b == FatBytes()[k]
    {
      hide Volume.Valid, Volume.Logical, Volume.FatBytes, Volume.Fat, Volume.Outside;
      var s, p := k / 512, k % 512;
      FatSector(s);
      b := win[p];
      assert b == win[..][p];
    }

    /** Reads word c of the FAT through the window. */
    method FatWord(c: nat) returns (w: nat)
      requires Valid() && 2 * c + 2 <= 512 * g.fsize
      modifies this`disk, this`winsect, this`wflag, win
      ensures Valid() && Logical() == old(Logical()) && g.InFat(winsect)
      ensures FatBytes() == old(FatBytes()) && Fat() == old(Fat()) && Outside() == old(Outside())
      ensures w == LdWord(FatBytes(), 2 * c)
    {
      hide Volume.Valid, Volume.Logical, Volume.FatBytes, Volume.Fat, Volume.Outside, LdWord, LdDword;
      Locate(c);
      var s, p := c / 256, c * 2 % 512;
      FatSector(s);
      w := LdWord(win[..], p);
      LdSlice(FatBytes(), 512 * s, 512 * s + 512, p);
    }

    /** Reads double word c of the FAT through the window. */
    method FatDword(c: nat) returns (w: nat)
      requires Valid() && 4 * c + 4 <= 512 * g.fsize
      modifies this`disk, this`winsect, this`wflag, win
      ensures Valid() && Logical() == old(Logical()) && winsect == g.fatbase + c / 128 < g.fatbase + g.fsize
      ensures FatBytes() == old(FatBytes()) && Fat() == old(Fat()) && Outside() == old(Outside())
      ensures w == LdDword(FatBytes(), 4 * c)
    {
      hide Volume.Valid, Volume.Logical, Volume.FatBytes, Volume.Fat, Volume.Outside, LdWord, LdDword;
      Locate(c);
      var s, p := c / 128, c * 4 % 512;
      FatSector(s);
      w := LdDword(win[..], p);
      LdSlice(FatBytes(), 512 * s, 512 * s + 512, p);
    }

    /** Reads a FAT12 pair of bytes, which may lie in two sectors. */
    method FatPair(k: nat) returns (w: nat)
      requires Valid() && k + 2 <= 512 * g.fsize
      modifies this`disk, this`winsect, this`wflag, win
      ensures Valid() && Logical() == old(Logical()) && g.InFat(winsect)
      ensures FatBytes() == old(FatBytes()) && Fat() == old(Fat()) && Outside() == old(Outside())
      ensures w == LdWord(FatBytes(), k)
    {
      hide Volume.Valid, Volume.Logical, Volume.FatBytes, Volume.Fat, Volume.Outside;
      var lo := FatByte(k);
      var hi := FatByte(k + 1);
      w := lo as int + 0x100 * hi as int;
    }

    method GetFat(clst: nat) returns (r: nat)
      requires Valid()
      modifies this`disk, this`winsect, this`wflag, win
      ensures Valid() && Logical() == old(Logical())
      ensures FatBytes() == old(FatBytes()) && Fat() == old(Fat()) && Outside() == old(Outside())
      ensures r == if 2 <= clst < g.nFatent then Fat()[clst] else 1
      ensures 2 <= clst < g.nFatent ==> g.InFat(winsect)
    {
      hide Volume.Valid, Volume.Logical, Volume.FatBytes, Volume.Fat, Volume.Outside, LdWord, LdDword;
      if clst < 2 || clst >= g.nFatent {
        return 1;
      }
      FatAt(clst);
      match g.subType
      case Fat12 =>
        var wc := FatPair(clst + clst / 2);
        r := if clst % 2 == 1 then wc / 0x10 else wc % 0x1000;
      case Fat16 =>
        r := FatWord(clst);
      case Fat32 =>
        var w := FatDword(clst);
        r := w % 0x1000_0000;
    }

    /** Stores byte i of sector s of the FAT in a window that holds this sector. */
    method Poke(s: nat, i: nat, b: byte)
      requires Valid() && s < g.fsize && i < 512 && winsect == g.fatbase + s
      modifies this`wflag, win
      ensures Valid() && wflag
      ensures FatBytes() == old(FatBytes())[512 * s + i := b]
      ensures Outside() == old(Outside())
    {
      hide Mirrored, Rest, Sector, Flushed, Copy;
      WindowIsLogical();
      FlushedFat(g, Logical(), s, i, b);
      ghost var was := win[..];
      FlushedRest(g, Logical(), s, was[i := b]);
      FlushedTwice(g, disk, winsect, was, was[i := b]);
      win[i] := b;
      wflag := true;
      assert win[..] == was[i := b];
    }

    /** Stores a FAT12 pair of bytes, which may lie in two sectors; the second byte keeps the nibble of the
        neighbouring entry. */
    method PutPair(clst: nat, val: dword)
      requires Valid() && g.subType == Fat12 && clst < g.nFatent
      modifies this`disk, this`winsect, this`wflag, win
      ensures Valid() && g.InFat(winsect)
      ensures Past(Fat12, clst) <= old(|FatBytes()|)
      ensures FatBytes() == Put(Fat12, old(FatBytes()), clst, val)
      ensures Outside() == old(Outside())
    {
      hide Volume.Valid, Volume.Logical, Volume.FatBytes, Volume.Fat, Volume.Outside, PairLow, PairHigh;
      FatAt(clst);
      var bc := clst + clst / 2;
      var p := FatByte(bc);
      Poke(bc / 512, bc % 512, PairLow(clst, p, val));
      p := FatByte(bc + 1);
      Poke((bc + 1) / 512, (bc + 1) % 512, PairHigh(clst, p, val));
    }

    method PutWord(clst: nat, val: dword)
      requires Valid() && g.subType == Fat16 && clst < g.nFatent
      modifies this`disk, this`winsect, this`wflag, win
      ensures Valid() && g.InFat(winsect)
      ensures Past(Fat16, clst) <= old(|FatBytes()|)
      ensures FatBytes() == Put(Fat16, old(FatBytes()), clst, val)
      ensures Outside() == old(Outside())
    {
      hide Volume.Valid, Volume.Logical, Volume.FatBytes, Volume.Fat, Volume.Outside;
      FatAt(clst);
      Locate(clst);
      var s, p := clst / 256, clst * 2 % 512;
      FatSector(s);
      Poke(s, p, val % 0x100);
      Poke(s, p + 1, val / 0x100 % 0x100);
    }

    /** A FAT32 store merges the value with the four reserved bits of the entry. */
    method PutDword(clst: nat, val: dword)
      requires Valid() && g.subType == Fat32 && clst < g.nFatent
      modifies this`disk, this`winsect, this`wflag, win
      ensures Valid() && g.InFat(winsect)
      ensures Past(Fat32, clst) <= old(|FatBytes()|)
      ensures FatBytes() == Put(Fat32, old(FatBytes()), clst, val)
      ensures Outside() == old(Outside())
    {
      hide Volume.Valid, Volume.Logical, Volume.FatBytes, Volume.Fat, Volume.Outside, LdDword;
      FatAt(clst);
      Locate(clst);
      var s, p := clst / 128, clst * 4 % 512;
      var w := FatDword(clst);
      var v := Merged(val, w);
      Poke(s, p, v % 0x100);
      Poke(s, p + 1, v / 0x100 % 0x100);
      Poke(s, p + 2, v / 0x1_0000 % 0x100);
      Poke(s, p + 3, v / 0x100_0000 % 0x100);
    }

    /** Writes a FAT entry; refuses a cluster number that has none. */
    method PutFat(clst: nat, val: dword) returns (ok: bool)
      requires Valid()
      modifies this`disk, this`winsect, this`wflag, win
      ensures Valid() && Outside() == old(Outside())
      ensures ok <==> 2 <= clst < g.nFatent
      ensures ok ==> g.InFat(winsect)
      ensures ok ==> Past(g.subType, clst) <= old(|FatBytes()|)
      ensures ok ==> FatBytes() == Put(g.subType, old(FatBytes()), clst, val)
      ensures ok ==> Fat() == old(Fat())[clst := Cut(g.subType, val)]
      ensures !ok ==> Logical() == old(Logical()) && FatBytes() == old(FatBytes()) && Fat() == old(Fat())
    {
      if clst < 2 || clst >= g.nFatent {
        return false;
      }
      hide Volume.Valid, Volume.Logical, Volume.FatBytes, Volume.Outside, Put, Cut;
      FatAt(clst);
      FatPut(clst, val);
      ok := true;
      match g.subType
      case Fat12 => PutPair(clst, val);
      case Fat16 => PutWord(clst, val);
      case Fat32 => PutDword(clst, val);
      FatIs();
    }

    lemma FatIs()
      requires Valid()
      ensures g.nFatent > 0 && Past(g.subType, g.nFatent - 1) <= |FatBytes()|
      ensures Fat() == Entries(g.subType, FatBytes(), g.nFatent)
    {
    }

    lemma FatPut(c: nat, v: dword)
      requires Valid() && c < g.nFatent
      ensures Past(g.subType, g.nFatent - 1) <= |FatBytes()| && Past(g.subType, c) <= |FatBytes()|
      ensures Entries(g.subType, Put(g.subType, FatBytes(), c, v), g.nFatent) == Fat()[c := Cut(g.subType, v)]
    {
      EntriesPut(g.subType, FatBytes(), g.nFatent, c, v);
    }

    /** The cached number of free clusters is right whenever it is known. */
    ghost predicate FreeExact()
      reads this, win
      requires Valid()
    {
      freeClust != UNKNOWN ==> freeClust == Zeros(Fat())
    }

    /** It is known, and right. */
    ghost predicate Counted()
      reads this, win
      requires Valid()
    {
      freeClust != UNKNOWN && freeClust == Zeros(Fat())
    }

    /** The free count stayed exact, and known. */
    twostate predicate CountKept()
      requires old(Valid()) && Valid()
      reads this, win
    {
      (old(FreeExact()) ==> FreeExact()) && (old(Counted()) ==> Counted())
    }

    /** So it did, a new one will be written to the FSInfo sector, and the window is where it
        was or on a FAT sector. */
    twostate predicate Steady()
      requires old(Valid()) && Valid()
      reads this, win
    {
      && CountKept()
      && (old(fsiFlag) || freeClust != old(freeClust) ==> fsiFlag)
      && (winsect == old(winsect) || g.InFat(winsect))
    }

    lemma FewEntries()
      requires Valid() && g.Marked()
      ensures g.nFatent <= END_OF_CHAIN
      ensures Cut(g.subType, END_OF_CHAIN) >= g.nFatent
      ensures forall c: nat :: c < g.nFatent ==> Cut(g.subType, c) == c
    {
    }

    /** A count raised by n clusters, if it is known and stays so. */
    static function More(count: dword, n: nat): dword {
      if count + n < UNKNOWN then count + n else UNKNOWN
    }

    /** Frees one cluster and counts it. */
    method FreeOne(c: nat) returns (ok: bool)
      requires Valid() && InRange(Fat(), c) && Fat()[c] != 0
      modifies this`disk, this`winsect, this`wflag, this`freeClust, this`fsiFlag, win
      ensures Valid() && Outside() == old(Outside()) && ok && g.InFat(winsect)
      ensures Fat() == old(Fat())[c := 0]
      ensures CountKept()
      ensures freeClust == More(old(freeClust), 1)
      ensures fsiFlag <==> old(fsiFlag) || old(freeClust) != UNKNOWN
    {
      hide Volume.Valid, Volume.Logical, Volume.FatBytes, Volume.Fat, Volume.Outside, Put, Cut, Zeros;
      SomeEntries();
      OutsideIs();
      ZerosPut(Fat(), c, 0);
      FewZeros(Fat()[c := 0]);
      ok := PutFat(c, 0);
      if freeClust != UNKNOWN {
        freeClust := freeClust + 1;
        fsiFlag := true;
      }
    }

    /** Frees the clusters linked from clst on. */
    method RemoveChain(clst: nat) returns (ok: bool)
      requires Valid()
      modifies this`disk, this`winsect, this`wflag, this`freeClust, this`fsiFlag, win
      ensures Valid() && Outside() == old(Outside())
      ensures Fat() == Zeroed(old(Fat()), Freed(old(Fat()), clst))
      ensures ok <==> InRange(Fat(), clst) && !MeetsOne(old(Fat()), clst)
      ensures InRange(Fat(), clst) && NoOnes(old(Fat())) ==> ok
      ensures InRange(Fat(), clst) ==> g.InFat(winsect)
      ensures CountKept()
      ensures freeClust == More(old(freeClust), |Freed(old(Fat()), clst)|)
      ensures fsiFlag <==> old(fsiFlag) || (old(freeClust) != UNKNOWN && Freed(old(Fat()), clst) != [])
    {
      hide Volume.Valid, Volume.Logical, Volume.FatBytes, Volume.Fat, Volume.Outside, Put, Cut, Zeroed, Freed, Zeros,
        MeetsOne;
      SomeEntries();
      ghost var f0 := Fat();
      ghost var done: seq<nat> := [];
      FreedStart(f0, clst);
      if clst < 2 || clst >= g.nFatent {
        return false;
      }
      ok := true;
      var c := clst;
      while c < g.nFatent
        invariant Valid() && Outside() == old(Outside())
        invariant c >= 2 && ok
        invariant c == clst || g.InFat(winsect)
        invariant Fat() == Zeroed(f0, done) && Freed(f0, clst) == done + Freed(Fat(), c)
        invariant OnWalk(f0, clst, done, c)
        invariant CountKept()
        invariant freeClust == More(old(freeClust), |done|)
        invariant fsiFlag <==> old(fsiFlag) || (old(freeClust) != UNKNOWN && done != [])
        decreases g.nFatent - Zeros(Fat())
      {
        FreedStep(f0, clst, done, Fat(), c);
        WalkStep(f0, clst, done, c);
        var nxt := GetFat(c);
        if nxt == 0 {
          break;
        }
        if nxt == 1 {
          ok := false;
          break;
        }
        ok := FreeOne(c);
        done := done + [c];
        c := nxt;
      }
      FreedStep(f0, clst, done, Fat(), c);
      WalkStep(f0, clst, done, c);
    }

    /** The end mark as it reads back from the FAT. */
    function EndMark(): nat {
      Cut(g.subType, END_OF_CHAIN)
    }

    lemma SomeEntries()
      requires Valid()
      ensures 3 <= g.nFatent < 0x1_0000_0000 && Cut(g.subType, 0) == 0 && Cut(g.subType, END_OF_CHAIN) > 0
    {
    }

    /** Searches for a free cluster in cyclic order behind scl; 0 if there is none, 1 on an entry 1. */
    method FindFree(scl: nat) returns (ncl: nat)
      requires Valid() && 1 <= scl < g.nFatent
      modifies this`disk, this`winsect, this`wflag, win
      ensures Valid() && Logical() == old(Logical()) && g.InFat(winsect)
      ensures FatBytes() == old(FatBytes()) && Fat() == old(Fat()) && Outside() == old(Outside())
      ensures ncl == 0 ==> NoneFree(Fat())
      ensures ncl == 1 ==> Damaged(Fat(), scl) && !NoOnes(Fat())
      ensures ncl > 1 ==> FirstFree(Fat(), scl, ncl) && InRange(Fat(), ncl) && Fat()[ncl] == 0
    {
      hide Volume.Valid, Volume.Logical, Volume.FatBytes, Volume.Fat, Volume.Outside;
      SomeEntries();
      ghost var f := Fat();
      ncl := scl;
      ghost var steps: int := 0;
      while true
        invariant Valid() && Logical() == old(Logical())
        invariant FatBytes() == old(FatBytes()) && Fat() == f && Outside() == old(Outside())
        invariant ncl < g.nFatent && 0 <= steps
        invariant if steps == 0 then ncl == scl else ncl >= 2 && ncl != scl && steps == Rank(g.nFatent, scl, ncl)
        invariant steps > 0 ==> g.InFat(winsect)
        invariant forall d: nat :: InRange(f, d) && Rank(g.nFatent, scl, d) <= steps ==> f[d] > 1
        decreases g.nFatent - steps
      {
        ncl := ncl + 1;
        if ncl >= g.nFatent {
          ncl := 2;
          if ncl > scl {
            return 0;
          }
        }
        steps := Rank(g.nFatent, scl, ncl);
        var cs := GetFat(ncl);
        if cs == 0 {
          break;
        }
        if cs == 1 {
          return 1;
        }
        if ncl == scl {
          return 0;
        }
      }
    }

    /** Stretches the chain that ends in clst, or starts a new chain when clst is 0. Returns the cluster that
        follows, 0 if the disk is full, 1 on a damaged FAT. */
    method CreateChain(clst: nat) returns (r: nat)
      requires Valid()
      modifies this`disk, this`winsect, this`wflag, this`freeClust, this`lastClust, this`fsiFlag, win
      ensures Valid() && Outside() == old(Outside())
      ensures clst == 0 || InRange(Fat(), clst) ==> g.InFat(winsect)
      ensures g.Marked() ==> CountKept()
      ensures old(FreeExact()) ==>
        (FreeExact() <==> freeClust == UNKNOWN || Fat() == old(Fat()) || clst == 0 || Cut(g.subType, r) != 0)
      ensures Created(old(Fat()), clst, old(Hint()), r, Fat(), EndMark(), Cut(g.subType, r))
      ensures lastClust == if Fat() == old(Fat()) then old(lastClust) else r
      ensures freeClust == if Fat() == old(Fat()) then old(freeClust) else OneLess(old(freeClust))
      ensures fsiFlag <==> old(fsiFlag) || (old(freeClust) != UNKNOWN && Fat() != old(Fat()))
    {
      hide Volume.Valid, Volume.Logical, Volume.FatBytes, Volume.Fat, Volume.Outside, Put, Cut, FirstFree, NoneFree,
        Zeros;
      SomeEntries();
      ghost var f := Fat();
      var scl := clst;
      if clst == 0 {
        scl := lastClust;
        if scl == 0 || scl >= g.nFatent {
          scl := 1;
        }
      } else {
        var cs := GetFat(clst);
        if cs < 2 {
          return 1;
        }
        if cs < g.nFatent {
          return cs;
        }
      }
      var ncl := FindFree(scl);
      if ncl <= 1 {
        return ncl;
      }
      Attach(clst, ncl);
      r := ncl;
    }

    /** A count lowered by one cluster; below 0 lies the value for unknown. */
    static function OneLess(count: dword): dword {
      if count == UNKNOWN || count == 0 then UNKNOWN else count - 1
    }

    /** Makes the free cluster ncl the end of a chain, behind clst if that is not 0, and counts it. */
    method Attach(clst: nat, ncl: nat)
      requires Valid() && InRange(Fat(), ncl) && Fat()[ncl] == 0
      requires clst != 0 ==> InRange(Fat(), clst) && Fat()[clst] != 0
      modifies this`disk, this`winsect, this`wflag, this`freeClust, this`lastClust, this`fsiFlag, win
      ensures Valid() && Outside() == old(Outside()) && g.InFat(winsect)
      ensures g.Marked() ==> CountKept()
      ensures old(FreeExact()) ==> (FreeExact() <==> freeClust == UNKNOWN || clst == 0 || Cut(g.subType, ncl) != 0)
      ensures
        var fat := old(Fat())[ncl := EndMark()];
        Fat() == if clst == 0 then fat else fat[clst := Cut(g.subType, ncl)]
      ensures lastClust == ncl && freeClust == OneLess(old(freeClust))
      ensures fsiFlag <==> old(fsiFlag) || old(freeClust) != UNKNOWN
    {
      hide Volume.Valid, Volume.Logical, Volume.FatBytes, Volume.Fat, Volume.Outside, Put, Cut, Zeros;
      SomeEntries();
      ghost var f := Fat();
      var ok := PutFat(ncl, END_OF_CHAIN);
      if clst != 0 {
        ok := PutFat(clst, ncl);
      }
      LinkedZeros(f, clst, ncl, EndMark(), Cut(g.subType, ncl));
      if g.Marked() {
        FewEntries();
      }
      lastClust := ncl;
      if freeClust != UNKNOWN {
        freeClust := if freeClust == 0 then UNKNOWN else freeClust - 1;
        fsiFlag := true;
      }
    }

    /** Where the search for a new chain starts: the last allocated cluster, if it is one. */
    ghost function Hint(): nat
      reads `lastClust
    {
      if lastClust == 0 || lastClust >= g.nFatent then 1 else lastClust
    }

    /** Counts zero entries by asking for each cluster in turn (FAT12). */
    method CountByCluster() returns (ok: bool, n: nat)
      requires Valid()
      modifies this`disk, this`winsect, this`wflag, win
      ensures Valid() && Logical() == old(Logical())
      ensures FatBytes() == old(FatBytes()) && Fat() == old(Fat()) && Outside() == old(Outside())
      ensures ok <==> NoOnes(Fat())
      ensures n == ZerosBelow(Fat(), FirstOne(Fat(), 2)) <= g.nFatent
    {
      hide Volume.Valid, Volume.Logical, Volume.FatBytes, Volume.Fat, Volume.Outside;
      SomeEntries();
      ok, n := true, 0;
      var clst := 2;
      while true
        invariant Valid() && Logical() == old(Logical()) && 2 <= clst < g.nFatent && ok
        invariant FatBytes() == old(FatBytes()) && Fat() == old(Fat()) && Outside() == old(Outside())
        invariant forall c :: 2 <= c < clst ==> Fat()[c] != 1
        invariant n == ZerosBelow(Fat(), clst) <= clst
        decreases g.nFatent - clst
      {
        var stat := GetFat(clst);
        if stat == 1 {
          ok := false;
          FirstOneIs(Fat(), 2, clst);
          break;
        }
        if stat == 0 {
          n := n + 1;
        }
        clst := clst + 1;
        if clst >= g.nFatent {
          FirstOneIs(Fat(), 2, clst);
          break;
        }
      }
    }

    lemma FatFits(c: nat)
      requires Valid() && c < g.nFatent
      ensures Past(g.subType, c) <= 512 * g.fsize == |FatBytes()|
    {
    }

    /** Is the entry of the FAT at offset p of the window zero? */
    method EntryIsZero(p: nat, ghost base: nat, ghost k: nat) returns (zero: bool)
      requires Valid() && k < g.nFatent && g.subType != Fat12 && p + Width(g.subType) <= 512
      requires base + 512 <= |FatBytes()| && win[..] == FatBytes()[base..base + 512]
      requires base + p == First(g.subType, k) && base + 512 >= Past(g.subType, k)
      ensures zero <==> Fat()[k] == 0
    {
      hide Volume.Valid, Volume.Logical, Volume.FatBytes, Volume.Fat, LdWord, LdDword;
      EntryInWindow(base, p, k);
      zero := if g.subType == Fat16 then LdWord(win[..], p) == 0 else LdDword(win[..], p) % 0x1000_0000 == 0;
    }

    /** An entry of the FAT sector in the window. */
    lemma EntryInWindow(base: nat, p: nat, k: nat)
      requires Valid() && k < g.nFatent && g.subType != Fat12
      requires base + 512 <= |FatBytes()| && win[..] == FatBytes()[base..base + 512]
      requires base + p == First(g.subType, k) && base + 512 >= Past(g.subType, k)
      ensures g.subType == Fat16 ==> LdWord(win[..], p) == Fat()[k]
      ensures g.subType == Fat32 ==> LdDword(win[..], p) % 0x1000_0000 == Fat()[k]
    {
      hide Volume.Valid, Volume.Logical, Volume.FatBytes, Volume.Fat, LdWord, LdDword;
      FatAt(k);
      LdSlice(FatBytes(), base, base + 512, p);
    }

    /** Counts zero entries by scanning the sectors of the FAT (FAT16 and FAT32), reserved entries included. */
    method CountBySector() returns (n: nat)
      requires Valid() && g.subType != Fat12
      modifies this`disk, this`winsect, this`wflag, win
      ensures Valid() && Logical() == old(Logical())
      ensures FatBytes() == old(FatBytes()) && Fat() == old(Fat()) && Outside() == old(Outside())
      ensures n == Zeros(Fat()) + ReservedZeros(Fat(), 2)
    {
      hide Volume.Valid, Volume.Logical, Volume.FatBytes, Volume.Fat, Volume.Outside, LdWord, LdDword, Get,
        ReservedZeros, Zeros, Scan, First, Past, Width;
      SomeEntries();
      AllZerosSplit(Fat(), g.nFatent);
      ghost var f, bytes := Fat(), FatBytes();
      ghost var k: nat, left: nat := 0, 0;
      var clst, sect: nat, i: nat, p: nat := g.nFatent, 0, 0, 0;
      n := 0;
      ScanStart(g.subType, g.fsize);
      while true
        invariant Valid() && Logical() == old(Logical())
        invariant FatBytes() == bytes && Fat() == f && Outside() == old(Outside())
        invariant k == g.nFatent - clst < g.nFatent && Scan(g.subType, g.fsize, k, left, i, p, sect)
        invariant i > 0 ==> 0 < sect <= g.fsize && win[..] == bytes[512 * (sect - 1)..512 * sect]
        invariant n == AllZeros(f, k)
        decreases clst
      {
        FatFits(k);
        if i == 0 {
          ScanFill(g.subType, g.fsize, k, left, p, sect);
          FatSector(sect);
          sect := sect + 1;
          p, i := 0, 512;
          left := if g.subType == Fat16 then 256 else 128;
        }
        ScanStep(g.subType, g.fsize, k, left, i, p, sect);
        var zero := EntryIsZero(p, 512 * (sect - 1), k);
        if zero {
          n := n + 1;
        }
        p, i := p + Width(g.subType), i - Width(g.subType);
        k, left := k + 1, left - 1;
        clst := clst - 1;
        if clst == 0 {
          break;
        }
      }
    }

    /** f_getfree: the cached number if it can be one, else a count, which then is the cached number. The count is the
        number of free clusters exactly if no zero entry lies behind an entry 1 (FAT12), or the reserved entries are not
        zero (FAT16 and FAT32). */
    method GetFree() returns (ok: bool, n: nat)
      requires Valid()
      modifies this`disk, this`winsect, this`wflag, this`freeClust, this`fsiFlag, win
      ensures Valid() && Logical() == old(Logical())
      ensures FatBytes() == old(FatBytes()) && Fat() == old(Fat()) && Outside() == old(Outside())
      ensures old(freeClust) + 2 <= g.nFatent ==> ok && n == freeClust == old(freeClust)
      ensures old(freeClust) + 2 <= g.nFatent ==> fsiFlag == old(fsiFlag)
      ensures old(freeClust) + 2 > g.nFatent ==>
        && (ok <==> g.subType != Fat12 || NoOnes(Fat()))
        && n == freeClust == (if g.subType == Fat12 then ZerosBelow(Fat(), FirstOne(Fat(), 2))
                              else Zeros(Fat()) + ReservedZeros(Fat(), 2))
        && fsiFlag == (old(fsiFlag) || g.subType == Fat32)
      ensures old(freeClust) + 2 > g.nFatent ==>
        (n == Zeros(Fat()) <==>
         if g.subType == Fat12 then forall c :: FirstOne(Fat(), 2) <= c < g.nFatent ==> Fat()[c] != 0
         else ReservedZeros(Fat(), 2) == 0)
      ensures NoOnes(Fat()) && ReservedZeros(Fat(), 2) == 0 && old(FreeExact()) ==> FreeExact() && n == Zeros(Fat())
    {
      hide Volume.Valid, Volume.Logical, Volume.FatBytes, Volume.Fat, Volume.Outside;
      SomeEntries();
      if freeClust <= g.nFatent - 2 {
        return true, freeClust;
      }
      if g.subType == Fat12 {
        ok, n := CountByCluster();
        ZerosBelowAll(Fat(), FirstOne(Fat(), 2), g.nFatent);
      } else {
        ok := true;
        n := CountBySector();
      }
      freeClust := n;
      if g.subType == Fat32 {
        fsiFlag := true;
      }
    }

    /** Changes bytes of a sector past the FAT copies in the window, as the directory functions do. */
    method Store(sect: nat, off: nat, d: seq<byte>)
      requires Valid() && g.fatbase + g.FatArea() <= sect < |disk| / 512 && off + |d| <= 512
      modifies this`disk, this`winsect, this`wflag, win
      ensures Valid() && winsect == sect && Logical() == Splice(old(Logical()), 512 * sect + off, d)
      ensures FatBytes() == old(FatBytes()) && Fat() == old(Fat())
    {
      hide Flushed, Mirrored, Copy, Splice, Sector;
      MoveWindow(sect);
      StoreIs(g, disk, sect, win[..], off, d);
      SpliceFar(g, Logical(), 512 * sect + off, d);
      Overlay(off, d);
      wflag := true;
    }

    /** mem_cpy to the window. */
    method Overlay(off: nat, d: seq<byte>)
      requires off + |d| <= win.Length
      modifies win
      ensures win[..] == Splice(old(win[..]), off, d)
    {
      forall i | 0 <= i < |d| {
        win[off + i] := d[i];
      }
    }

    /** The zero window stands behind the c sectors already cleared. */
    ghost predicate Clearing(d0: seq<byte>, sect: nat, c: nat)
      reads this, win
      requires g.Ok(|d0| / 512) && 512 * (sect + c) <= |d0|
    {
      && winsect == sect + c && !wflag && win.Length == 512 && win[..] == seq(512, _ => 0)
      && disk == ZeroedTo(d0, sect, c)
      && (agree ==> Mirrored(g, disk))
      && Copy(g, disk, 0) == Copy(g, d0, 0)
    }

    /** Writes the zero window to the next sector. */
    method ClearOne(ghost d0: seq<byte>, ghost sect: nat, ghost c: nat)
      requires |d0| % 512 == 0 && g.Ok(|d0| / 512) && g.fatbase + g.FatArea() <= sect && 512 * (sect + c + 1) <= |d0|
      requires Clearing(d0, sect, c)
      modifies this`disk, this`winsect, this`wflag, win
      ensures Clearing(d0, sect, c + 1)
    {
      hide Flushed, Mirrored, Copy, Sector, ZeroedTo;
      wflag := true;
      ZeroedOne(g, d0, sect, c, win[..]);
      MoveWindow(0);
      winsect := winsect + 1;
    }

    /** Clears n sectors past the FAT copies through the window, and leaves the first of them in it, as dir_next does
        with a new cluster. */
    method ClearSectors(sect: nat, n: nat)
      requires Valid() && g.fatbase + g.FatArea() <= sect && n > 0 && sect + n <= |disk| / 512
      modifies this`disk, this`winsect, this`wflag, win
      ensures Valid() && winsect == sect && Logical() == Splice(old(Logical()), 512 * sect, seq(512 * n, _ => 0))
      ensures FatBytes() == old(FatBytes()) && Fat() == old(Fat())
    {
      hide Flushed, Mirrored, Copy, Sector, Splice;
      MoveWindow(0);
      ghost var d0 := disk;
      forall i | 0 <= i < 512 {
        win[i] := 0;
      }
      winsect := sect;
      ZeroedNone(d0, sect);
      var c := 0;
      while c < n
        invariant c <= n && Clearing(d0, sect, c)
      {
        ClearOne(d0, sect, c);
        c := c + 1;
      }
      winsect := winsect - c;
      ZeroedFirst(d0, sect, n);
    }

    /** disk_write of whole data sectors past the window. */
    method DiskWrite(sect: nat, d: seq<byte>)
      requires Valid() && g.database <= sect && |d| % 512 == 0 && 512 * sect + |d| <= |disk|
      requires winsect < sect || 512 * sect + |d| <= 512 * winsect
      modifies this`disk
      ensures Valid() && Logical() == Splice(old(Logical()), 512 * sect, d)
      ensures FatBytes() == old(FatBytes()) && Fat() == old(Fat())
    {
      SpliceKeeps(g, disk, winsect, wflag, win[..], agree, 512 * sect, d);
      disk := Splice(disk, 512 * sect, d);
    }

    /** disk_read of whole sectors past the window, none of which it holds dirty. */
    method DiskRead(sect: nat, count: nat) returns (d: seq<byte>)
      requires Valid() && g.database <= sect && 512 * (sect + count) <= |disk|
      requires winsect < sect || sect + count <= winsect
      ensures d == Logical()[512 * sect..512 * (sect + count)]
    {
      d := disk[512 * sect..512 * (sect + count)];
      if wflag {
        FlushedFar(g, disk, winsect, win[..], 512 * sect, 512 * (sect + count));
      }
    }

    /** Writes everything cached to the medium, on FAT32 the free-cluster information too. */
    method Sync()
      requires Valid()
      modifies this`disk, this`winsect, this`wflag, this`fsiFlag, win
      ensures Valid() && !wflag && disk == Logical()
      ensures disk == if g.subType == Fat32 && old(fsiFlag)
                      then Splice(old(Logical()), 512 * g.fsiSector, FsInfo(freeClust, lastClust))
                      else old(Logical())
      ensures FatBytes() == old(FatBytes()) && Fat() == old(Fat())
      ensures g.subType == Fat32 ==> !fsiFlag
      ensures winsect == old(winsect) || winsect == 0
    {
      hide Flushed, Mirrored, Copy, FsInfo;
      MoveWindow(0);
      if g.subType == Fat32 && fsiFlag {
        winsect := 0;
        var info := FsInfo(freeClust, lastClust);
        forall i | 0 <= i < 512 {
          win[i] := info[i];
        }
        assert win[..] == info;
        InfoOutsideFat(g, disk, info);
        disk := Splice(disk, 512 * g.fsiSector, win[..]);
        fsiFlag := false;
      }
    }
  }

  /** The FSInfo sector. */
  function FsInfo(free: dword, next: dword): (s: seq<byte>)
    ensures |s| == 512
  {
    var s0 := StWord(seq(512, _ => 0), 510, 0xAA55);
    var s1 := StDword(s0, 0, 0x4161_5252);
    var s2 := StDword(s1, 484, 0x6141_7272);
    var s3 := StDword(s2, 488, free);
    StDword(s3, 492, next)
  }

  /** What mounting reads from an FSInfo sector. */
  lemma FsInfoReads(free: dword, next: dword)
    ensures
      var s := FsInfo(free, next);
      && LdWord(s, 510) == 0xAA55 && LdDword(s, 0) == 0x4161_5252 && LdDword(s, 484) == 0x6141_7272
      && LdDword(s, 488) == free && LdDword(s, 492) == next
  {
    hide StWord, StDword, LdDword, LdWord;
    var s0 := StWord(seq(512, _ => 0), 510, 0xAA55);
    var s1 := StDword(s0, 0, 0x4161_5252);
    var s2 := StDword(s1, 484, 0x6141_7272);
    var s3 := StDword(s2, 488, free);
    forall j: nat | j in {0, 484, 488, 510} {
      StElsewhere(s3, 492, next, j);
    }
    forall j: nat | j in {0, 484, 510} {
      StElsewhere(s2, 488, free, j);
    }
    forall j: nat | j in {0, 510} {
      StElsewhere(s1, 484, 0x6141_7272, j);
    }
    StElsewhere(s0, 0, 0x4161_5252, 510);
  }

  lemma InfoOutsideFat(g: Geometry, disk: seq<byte>, info: seq<byte>)
    requires g.Ok(|disk| / 512) && g.subType.Fat32? && |info| == 512
    ensures Mirrored(g, disk) ==> Mirrored(g, Splice(disk, 512 * g.fsiSector, info))
    ensures Copy(g, Splice(disk, 512 * g.fsiSector, info), 0) == Copy(g, disk, 0)
  {
    var r := Splice(disk, 512 * g.fsiSector, info);
    assert Copy(g, r, 0) == Copy(g, disk, 0);
    if g.nFats == 2 {
      assert Copy(g, r, 1) == Copy(g, disk, 1);
    }
  }

  // Counts that are wrong.

  /** A medium of three sectors with a FAT in the second one. */
  function SmallDisk(fat: seq<byte>): (r: seq<byte>)
    requires |fat| <= 512
    ensures |r| == 1536
  {
    Splice(seq(1536, _ => 0), 512, fat)
  }

  function SmallGeometry(t: SubType, n: nat): Geometry {
    Geometry(t, 1, 1, 1, 1, 0, 2, 2, n, 0)
  }

  lemma SmallByte(t: SubType, n: nat, fat: seq<byte>)
    requires |fat| <= 512 && !t.Fat32? && 3 <= n <= 5
    ensures SmallGeometry(t, n).Ok(3) && Past(t, n - 1) <= 512
    ensures
      var f := Copy(SmallGeometry(t, n), SmallDisk(fat), 0);
      forall k :: 0 <= k < 512 ==> f[k] == if k < |fat| then fat[k] else 0
  {
  }

  lemma PartialCount(fat: seq<nat>)
    requires fat == [0xFF0, 0xFFF, 1, 0, 0]
    ensures FirstOne(fat, 2) == 2 && ZerosBelow(fat, 2) == 0 && Zeros(fat) == 2
  {
    assert ZerosBelow(fat, 3) == 0 && ZerosBelow(fat, 4) == 1;
  }

  lemma ReservedCount(fat: seq<nat>)
    requires fat == [0, 0xFFFF, 0]
    ensures Zeros(fat) == 1 && ReservedZeros(fat, 2) == 1
  {
    assert ZerosBelow(fat, 2) == 0;
  }

  /** A FAT12 volume with two free clusters behind an entry 1: the first call of f_getfree fails, and the next one says
      that none is free. */
  method PartialCountIsKept() returns (v: Volume, first: bool, ok: bool, n: nat)
    ensures fresh(v) && v.Valid() && v.Fat() == [0xFF0, 0xFFF, 1, 0, 0] && Zeros(v.Fat()) == 2
    ensures !first && ok && n == 0
  {
    hide Volume.Valid, Volume.Logical, Volume.Outside, Copy, SmallDisk, Past;
    var fat: seq<byte> := [0xF0, 0xFF, 0xFF, 1, 0, 0, 0, 0];
    SmallByte(Fat12, 5, fat);
    v := new Volume(SmallGeometry(Fat12, 5), SmallDisk(fat), UNKNOWN, UNKNOWN);
    assert v.Fat() == [0xFF0, 0xFFF, 1, 0, 0];
    PartialCount(v.Fat());
    hide Volume.Fat;
    first, n := v.GetFree();
    ok, n := v.GetFree();
  }

  /** A FAT16 volume with one free cluster and a zero in the first reserved entry: f_getfree says two. */
  method ReservedAreCounted() returns (v: Volume, ok: bool, n: nat)
    ensures fresh(v) && v.Valid() && v.Fat() == [0, 0xFFFF, 0] && Zeros(v.Fat()) == 1
    ensures ok && n == 2
  {
    hide Volume.Valid, Volume.Logical, Volume.Outside, Copy, SmallDisk, Past;
    var fat: seq<byte> := [0, 0, 0xFF, 0xFF, 0, 0];
    SmallByte(Fat16, 3, fat);
    v := new Volume(SmallGeometry(Fat16, 3), SmallDisk(fat), UNKNOWN, UNKNOWN);
    assert v.Fat() == [0, 0xFFFF, 0];
    ReservedCount(v.Fat());
    hide Volume.Fat;
    ok, n := v.GetFree();
  }
}
