/** The boot record: what f_mkfs puts into it and what mounting makes of it. */
module FatBoot {
  import opened Bytes
  import opened Common
  import opened FatCodec
  import opened FatVolume

  const MIN_FAT16 := 4086
  const MIN_FAT32 := 65526
  const N_ROOTDIR := 512
  const W := 0x1_0000_0000 // machine words are 32 bits wide

  /** The sub-type that goes with a number of clusters. */
  function SubTypeOf(clusters: nat): SubType {
    if clusters >= MIN_FAT32 then Fat32 else if clusters >= MIN_FAT16 then Fat16 else Fat12
  }

  /** Where f_mkfs puts the areas of a volume; sector numbers and sizes. */
  datatype Plan = Plan(
    subType: SubType,
    au: nat,       // sectors per cluster
    bVol: nat,     // first sector of the volume
    nVol: nat,     // its size
    nRsv: nat,     // reserved sectors
    nFat: nat,     // sectors of the FAT
    nDir: nat,     // sectors of the root table
    clusters: nat)

  /** Text as bytes. */
  function Text(s: string): (r: seq<byte>)
    ensures |r| == |s|
  {
    seq(|s|, i requires 0 <= i < |s| => s[i] as int % 0x100)
  }

  function MemCpy(s: seq<byte>, off: nat, d: seq<byte>): (r: seq<byte>)
    requires off + |d| <= |s|
    ensures |r| == |s|
  {
    Splice(s, off, d)
  }

  /** The part of the boot record that all sub-types have. */
  function CommonPart(p: Plan, md: byte): (r: seq<byte>)
    ensures |r| == 512
  {
    var s0 := MemCpy(seq(512, _ => 0), 0, [0xEB, 0xFE, 0x90] + Text("MSDOS5.0"));
    var s1 := StWord(s0, 11, 512);
    var s2 := s1[13 := p.au % 0x100];
    var s3 := StWord(s2, 14, p.nRsv);
    var s4 := s3[16 := 1];
    var s5 := StWord(s4, 17, if p.subType.Fat32? then 0 else N_ROOTDIR);
    var s6 := if p.nVol < 0x1_0000 then StWord(s5, 19, p.nVol) else StDword(s5, 32, p.nVol);
    var s7 := s6[21 := md];
    var s8 := StWord(s7, 24, 63);
    var s9 := StWord(s8, 26, 255);
    StDword(s9, 28, p.bVol)
  }

  function Tail32(s: seq<byte>, p: Plan, time: dword): (r: seq<byte>)
    requires |s| == 512
    ensures |r| == 512
  {
    var t0 := StDword(s, 67, time);
    var t1 := StDword(t0, 36, p.nFat);
    var t2 := StDword(t1, 44, 2);
    var t3 := StWord(t2, 48, 1);
    var t4 := StWord(t3, 50, 6);
    var t5 := t4[64 := 0x80][66 := 0x29];
    MemCpy(t5, 71, Text("NO NAME    FAT32   "))
  }

  function Tail16(s: seq<byte>, p: Plan, time: dword): (r: seq<byte>)
    requires |s| == 512
    ensures |r| == 512
  {
    var t0 := StDword(s, 39, time);
    var t1 := StWord(t0, 22, p.nFat);
    var t2 := t1[36 := 0x80][38 := 0x29];
    MemCpy(t2, 43, Text("NO NAME    FAT     "))
  }

  function BootRecord(p: Plan, md: byte, time: dword): (r: seq<byte>)
    ensures |r| == 512
  {
    var s := CommonPart(p, md);
    StWord(if p.subType.Fat32? then Tail32(s, p, time) else Tail16(s, p, time), 510, 0xAA55)
  }

  lemma CommonZeros(p: Plan, md: byte)
    ensures forall i :: 22 <= i < 24 || 36 <= i < 512 ==> CommonPart(p, md)[i] == 0
  {
    hide StWord, StDword, Text, Splice;
  }

  lemma CommonSize(p: Plan, md: byte)
    requires p.nVol < W
    ensures LdWord(CommonPart(p, md), 19) == if p.nVol < 0x1_0000 then p.nVol else 0
    ensures p.nVol >= 0x1_0000 ==> LdDword(CommonPart(p, md), 32) == p.nVol
  {
    hide StWord, StDword, Text, Splice;
  }

  lemma CommonHead(p: Plan, md: byte)
    requires p.au < 0x100 && p.nRsv < 0x1_0000
    ensures
      var s := CommonPart(p, md);
      && LdWord(s, 11) == 512
      && s[13] == p.au
      && LdWord(s, 14) == p.nRsv
      && s[16] == 1
      && LdWord(s, 17) == (if p.subType.Fat32? then 0 else N_ROOTDIR)
  {
    hide StWord, StDword, Text, Splice;
  }

  lemma CommonFields(p: Plan, md: byte)
    requires p.au < 0x100 && p.nRsv < 0x1_0000 && p.nVol < W
    ensures
      var s := CommonPart(p, md);
      && LdWord(s, 11) == 512
      && s[13] == p.au
      && LdWord(s, 14) == p.nRsv
      && s[16] == 1
      && LdWord(s, 17) == (if p.subType.Fat32? then 0 else N_ROOTDIR)
      && LdWord(s, 19) == (if p.nVol < 0x1_0000 then p.nVol else 0)
      && (p.nVol >= 0x1_0000 ==> LdDword(s, 32) == p.nVol)
      && (forall i :: 22 <= i < 24 || 36 <= i < 512 ==> s[i] == 0)
  {
    hide CommonPart, LdWord, LdDword;
    CommonZeros(p, md);
    CommonSize(p, md);
    CommonHead(p, md);
  }

  lemma Tail32Fields(s: seq<byte>, p: Plan, time: dword)
    requires |s| == 512 && p.nFat < W
    ensures
      var r := Tail32(s, p, time);
      && (forall i :: 0 <= i < 36 ==> r[i] == s[i])
      && LdDword(r, 36) == p.nFat && LdDword(r, 44) == 2 && LdWord(r, 48) == 1
      && r[82] == 'F' as int && r[83] == 'A' as int && r[84] == 'T' as int
      && (forall i :: 52 <= i < 64 ==> r[i] == s[i])
  {
    Name32();
    hide Text, StWord, StDword, Splice;
  }

  lemma Name32()
    ensures
      var n := Text("NO NAME    FAT32   ");
      n[11] == 'F' as int && n[12] == 'A' as int && n[13] == 'T' as int
  {
  }

  lemma Tail16Fields(s: seq<byte>, p: Plan, time: dword)
    requires |s| == 512 && p.nFat < 0x1_0000
    ensures
      var r := Tail16(s, p, time);
      && (forall i :: 0 <= i < 36 && i != 22 && i != 23 ==> r[i] == s[i])
      && LdWord(r, 22) == p.nFat
      && r[54] == 'F' as int && r[55] == 'A' as int && r[56] == 'T' as int
  {
    var n := Text("NO NAME    FAT     ");
    assert n[11] == 'F' as int && n[12] == 'A' as int && n[13] == 'T' as int;
    hide Text;
  }

  lemma CommonRest(p: Plan, md: byte)
    requires p.bVol < W
    ensures
      var s := CommonPart(p, md);
      && s[0] as int == 0xEB && s[1] as int == 0xFE && s[2] as int == 0x90 && s[3..11] == Text("MSDOS5.0")
      && s[21] == md && LdWord(s, 24) == 63 && LdWord(s, 26) == 255 && LdDword(s, 28) == p.bVol
  {
    hide StWord, StDword, Text, Splice;
    CommonName(p, md);
  }

  lemma CommonName(p: Plan, md: byte)
    ensures
      var s := CommonPart(p, md);
      s[0] as int == 0xEB && s[1] as int == 0xFE && s[2] as int == 0x90 && s[3..11] == Text("MSDOS5.0")
  {
    hide StWord, StDword, Text, Splice;
    var s, n := CommonPart(p, md), Text("MSDOS5.0");
    forall i: nat | i < 8 ensures s[3 + i] == n[i] {
      assert s[3 + i] == ([0xEB, 0xFE, 0x90] + n)[3 + i];
    }
  }

  lemma Tail32Rest(s: seq<byte>, p: Plan, time: dword)
    requires |s| == 512
    ensures
      var r := Tail32(s, p, time);
      && LdWord(r, 50) == 6 && r[64] as int == 0x80 && r[66] as int == 0x29 && LdDword(r, 67) == time
      && r[71..90] == Text("NO NAME    FAT32   ")
  {
    hide Text, StWord, StDword;
  }

  lemma Tail16Rest(s: seq<byte>, p: Plan, time: dword)
    requires |s| == 512
    ensures
      var r := Tail16(s, p, time);
      && r[36] as int == 0x80 && r[38] as int == 0x29 && LdDword(r, 39) == time
      && r[43..62] == Text("NO NAME    FAT     ")
  {
    hide Text, StWord, StDword;
  }

  /** The fields of a boot record that mounting does not read: jump, name of the system, media byte, the geometry and the
      sectors before the volume; drive, signature, serial number, label and type name, and on FAT32 the backup's place. */
  lemma RecordRest(p: Plan, md: byte, time: dword)
    requires p.bVol < W
    ensures
      var s := BootRecord(p, md, time);
      && s[0] as int == 0xEB && s[1] as int == 0xFE && s[2] as int == 0x90 && s[3..11] == Text("MSDOS5.0")
      && s[21] == md && LdWord(s, 24) == 63 && LdWord(s, 26) == 255 && LdDword(s, 28) == p.bVol
      && if p.subType.Fat32? then
           && LdWord(s, 50) == 6 && s[64] as int == 0x80 && s[66] as int == 0x29 && LdDword(s, 67) == time
           && s[71..90] == Text("NO NAME    FAT32   ")
         else
           && s[36] as int == 0x80 && s[38] as int == 0x29 && LdDword(s, 39) == time
           && s[43..62] == Text("NO NAME    FAT     ")
  {
    hide CommonPart, Tail32, Tail16, StWord, Text;
    var c := CommonPart(p, md);
    var t := if p.subType.Fat32? then Tail32(c, p, time) else Tail16(c, p, time);
    CommonRest(p, md);
    Tail32Rest(c, p, time);
    Tail16Rest(c, p, time);
    TailFront(c, p, time);
    FrontKept(c, t);
    SignedKept(t, StWord(t, 510, 0xAA55));
  }

  lemma TailFront(c: seq<byte>, p: Plan, time: dword)
    requires |c| == 512
    ensures forall i :: 0 <= i < 36 && i != 22 && i != 23 ==> Tail32(c, p, time)[i] == c[i]
    ensures forall i :: 0 <= i < 36 && i != 22 && i != 23 ==> Tail16(c, p, time)[i] == c[i]
  {
    hide Text, StWord, StDword, Splice;
  }

  lemma FrontKept(c: seq<byte>, t: seq<byte>)
    requires |c| == |t| == 512 && forall i :: 0 <= i < 36 && i != 22 && i != 23 ==> t[i] == c[i]
    ensures t[..3] == c[..3] && t[3..11] == c[3..11] && t[21] == c[21]
    ensures LdWord(t, 24) == LdWord(c, 24) && LdWord(t, 26) == LdWord(c, 26) && LdDword(t, 28) == LdDword(c, 28)
  {
  }

  lemma SignedKept(t: seq<byte>, r: seq<byte>)
    requires |t| == |r| == 512 && forall i :: 0 <= i < 510 ==> r[i] == t[i]
    ensures r[..3] == t[..3] && r[3..11] == t[3..11] && r[71..90] == t[71..90] && r[43..62] == t[43..62]
    ensures LdWord(r, 24) == LdWord(t, 24) && LdWord(r, 26) == LdWord(t, 26) && LdWord(r, 50) == LdWord(t, 50)
    ensures LdDword(r, 28) == LdDword(t, 28) && LdDword(r, 39) == LdDword(t, 39) && LdDword(r, 67) == LdDword(t, 67)
  {
  }

  /** The fields of a boot record, as mounting reads them. */
  ghost predicate Fields(s: seq<byte>, p: Plan)
    requires |s| == 512
  {
    LdWord(s, 510) == 0xAA55 && HasFat(s) && CommonOk(s, p) && OwnOk(s, p)
  }

  ghost predicate CommonOk(s: seq<byte>, p: Plan)
    requires |s| == 512
  {
    && LdWord(s, 11) == 512
    && s[13] == p.au
    && LdWord(s, 14) == p.nRsv
    && s[16] == 1
    && LdWord(s, 17) == (if p.subType.Fat32? then 0 else N_ROOTDIR)
    && LdWord(s, 19) == (if p.nVol < 0x1_0000 then p.nVol else 0)
    && (p.nVol >= 0x1_0000 ==> LdDword(s, 32) == p.nVol)
  }

  ghost predicate OwnOk(s: seq<byte>, p: Plan)
    requires |s| == 512
  {
    && LdWord(s, 22) == (if p.subType.Fat32? then 0 else p.nFat)
    && (p.subType.Fat32? ==> LdDword(s, 36) == p.nFat && LdDword(s, 44) == 2 && LdWord(s, 48) == 1)
  }

  /** Mounting looks for "FAT" at the places of the type strings. */
  predicate HasFat(s: seq<byte>)
    requires |s| == 512
  {
    LdDword(s, 54) % 0x100_0000 == 0x54_4146 || LdDword(s, 82) % 0x100_0000 == 0x54_4146
  }

  lemma SpellsFat(s: seq<byte>, i: nat)
    requires |s| == 512 && i in {54, 82} && s[i] == 'F' as int && s[i + 1] == 'A' as int && s[i + 2] == 'T' as int
    ensures HasFat(s)
  {
  }

  /** Fields in the front of a sector depend on the front only. */
  lemma SameFront(s: seq<byte>, t: seq<byte>, p: Plan)
    requires |s| == |t| == 512 && CommonOk(s, p) && forall i :: 0 <= i < 36 && i != 22 && i != 23 ==> t[i] == s[i]
    ensures CommonOk(t, p)
  {
  }

  lemma Signed(t: seq<byte>, p: Plan)
    requires |t| == 512 && HasFat(t) && CommonOk(t, p) && OwnOk(t, p)
    ensures Fields(StWord(t, 510, 0xAA55), p)
  {
    var r := StWord(t, 510, 0xAA55);
    hide StWord;
    SameFront(t, r, p);
    assert LdDword(r, 54) == LdDword(t, 54) && LdDword(r, 82) == LdDword(t, 82);
  }

  lemma Record32(p: Plan, s: seq<byte>, time: dword)
    requires |s| == 512 && CommonOk(s, p) && p.subType.Fat32? && p.nFat < W && s[22] == 0 && s[23] == 0
    ensures Fields(StWord(Tail32(s, p, time), 510, 0xAA55), p)
  {
    Tail32Fields(s, p, time);
    hide Tail32, CommonOk, HasFat, Fields, StWord, LdDword;
    var t := Tail32(s, p, time);
    SpellsFat(t, 82);
    SameFront(s, t, p);
    Signed(t, p);
  }

  lemma Record16(p: Plan, s: seq<byte>, time: dword)
    requires |s| == 512 && CommonOk(s, p) && !p.subType.Fat32? && 0 < p.nFat < 0x1_0000
    ensures Fields(StWord(Tail16(s, p, time), 510, 0xAA55), p)
  {
    Tail16Fields(s, p, time);
    hide Tail16, CommonOk, HasFat, Fields, StWord;
    var t := Tail16(s, p, time);
    SpellsFat(t, 54);
    SameFront(s, t, p);
    Signed(t, p);
  }

  lemma RecordFields(p: Plan, md: byte, time: dword)
    requires p.au < 0x100 && p.nRsv < 0x1_0000 && p.nVol < W && p.nFat < W &&
      (!p.subType.Fat32? ==> 0 < p.nFat < 0x1_0000)
    ensures Fields(BootRecord(p, md, time), p)
  {
    CommonFields(p, md);
    var s := CommonPart(p, md);
    assert CommonOk(s, p) && s[22] == 0 && s[23] == 0;
    hide CommonPart, Tail16, Tail32, Fields, CommonOk, StWord;
    if p.subType.Fat32? {
      Record32(p, s, time);
    } else {
      Record16(p, s, time);
    }
  }
}
