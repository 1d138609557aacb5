/** FAT12, FAT16 and FAT32 entries packed in the bytes of one FAT (the arithmetic of get_fat and put_fat). */
module FatCodec {
  import opened Bytes
  import opened Common

  datatype SubType = Fat12 | Fat16 | Fat32

  const END_OF_CHAIN := 0x0FFF_FFFF

  /** The value cut to the entry width. */
  function Cut(t: SubType, v: nat): nat {
    match t
    case Fat12 => v % 0x1000
    case Fat16 => v % 0x1_0000
    case Fat32 => v % 0x1000_0000
  }

  /** First byte of the entry of cluster c, and the byte just past it. */
  function First(t: SubType, c: nat): nat {
    match t
    case Fat12 => c + c / 2
    case Fat16 => 2 * c
    case Fat32 => 4 * c
  }

  function Past(t: SubType, c: nat): nat {
    First(t, c) + if t.Fat32? then 4 else 2
  }

  function Get(t: SubType, f: seq<byte>, c: nat): (v: nat)
    requires Past(t, c) <= |f|
    ensures v == Cut(t, v)
  {
    match t
    case Fat12 =>
      var w := LdWord(f, c + c / 2);
      if c % 2 == 1 then w / 0x10 else w % 0x1000
    case Fat16 => LdWord(f, 2 * c)
    case Fat32 => LdDword(f, 4 * c) % 0x1000_0000
  }

  /** The two bytes of a FAT12 entry after a store; b is the byte there before. Each keeps the nibble of the
      neighbouring entry, if it holds one. */
  function PairLow(c: nat, b: byte, v: nat): byte {
    if c % 2 == 1 then b as int % 0x10 + v % 0x10 * 0x10 else v % 0x100
  }

  function PairHigh(c: nat, b: byte, v: nat): byte {
    if c % 2 == 1 then v / 0x10 % 0x100 else b as int / 0x10 * 0x10 + v / 0x100 % 0x10
  }

  /** All bits of two numbers of four bits. */
  function Or4(a: nat, b: nat): (r: nat)
    requires a < 0x10 && b < 0x10
    ensures r < 0x10 && (a == 0 ==> r == b)
  {
    (if a / 8 == 1 || b / 8 == 1 then 8 else 0) + (if a / 4 % 2 == 1 || b / 4 % 2 == 1 then 4 else 0)
      + (if a / 2 % 2 == 1 || b / 2 % 2 == 1 then 2 else 0) + if a % 2 == 1 || b % 2 == 1 then 1 else 0
  }

  /** A bit is set in the result exactly if it is set in one of them. */
  lemma Or4Bits(a: nat, b: nat, p: nat)
    requires a < 0x10 && b < 0x10 && p in {1, 2, 4, 8}
    ensures Or4(a, b) / p % 2 == 1 <==> a / p % 2 == 1 || b / p % 2 == 1
  {
    assert a / 8 < 2 && b / 8 < 2;
    Digits(if a / 8 == 1 || b / 8 == 1 then 1 else 0, if a / 4 % 2 == 1 || b / 4 % 2 == 1 then 1 else 0,
           if a / 2 % 2 == 1 || b / 2 % 2 == 1 then 1 else 0, if a % 2 == 1 || b % 2 == 1 then 1 else 0, Or4(a, b));
  }

  lemma Digits(d3: nat, d2: nat, d1: nat, d0: nat, r: nat)
    requires d3 < 2 && d2 < 2 && d1 < 2 && d0 < 2 && r == 8 * d3 + 4 * d2 + 2 * d1 + d0
    ensures r / 8 % 2 == d3 && r / 4 % 2 == d2 && r / 2 % 2 == d1 && r / 1 % 2 == d0
  {
  }

  /** v with the four reserved bits of the double word stored before; reserved bits of v itself are added. */
  function Merged(v: dword, was: dword): dword {
    v % 0x1000_0000 + Or4(v / 0x1000_0000, was / 0x1000_0000) * 0x1000_0000
  }

  function Put(t: SubType, f: seq<byte>, c: nat, v: dword): (r: seq<byte>)
    requires Past(t, c) <= |f|
    ensures |r| == |f|
  {
    match t
    case Fat12 =>
      var bc := c + c / 2;
      f[bc := PairLow(c, f[bc], v)][bc + 1 := PairHigh(c, f[bc + 1], v)]
    case Fat16 => StWord(f, 2 * c, v)
    case Fat32 => StDword(f, 4 * c, Merged(v, LdDword(f, 4 * c)))
  }

  lemma Modulo(q: nat, r: nat, m: nat)
    requires r < m && (m == 0x10 || m == 0x1000 || m == 0x1000_0000)
    ensures (r + m * q) / m == q && (r + m * q) % m == r
  {
  }

  lemma Parts(v: nat)
    ensures v % 0x1000 == v % 0x10 + 0x10 * (v / 0x10 % 0x100)
    ensures v % 0x1000 == v % 0x100 + 0x100 * (v / 0x100 % 0x10)
  {
    var (q, p) := (v / 0x10, v / 0x100);
    assert v == 0x10 * q + v % 0x10 && q == 0x100 * (q / 0x100) + q % 0x100;
    Modulo(q / 0x100, v % 0x10 + 0x10 * (q % 0x100), 0x1000);
    assert v == 0x100 * p + v % 0x100 && p == 0x10 * (p / 0x10) + p % 0x10;
    Modulo(p / 0x10, v % 0x100 + 0x100 * (p % 0x10), 0x1000);
  }

  /** Nibble arithmetic of a FAT12 pair: an odd entry starts at the high nibble of its first byte a, an even
      one ends at the low nibble of its second byte b. */
  lemma Nibbles(a: byte, b: byte, v: nat)
    ensures (a as int % 0x10 + v % 0x10 * 0x10 + 0x100 * (v / 0x10 % 0x100)) / 0x10 == v % 0x1000
    ensures (v % 0x100 + 0x100 * (b as int / 0x10 * 0x10 + v / 0x100 % 0x10)) % 0x1000 == v % 0x1000
  {
    Modulo(v % 0x10 + 0x10 * (v / 0x10 % 0x100), a as int % 0x10, 0x10);
    Parts(v);
    Modulo(b as int / 0x10, v % 0x1000, 0x1000);
  }

  lemma GetPut12Same(f: seq<byte>, c: nat, v: dword)
    requires Past(Fat12, c) <= |f|
    ensures Get(Fat12, Put(Fat12, f, c, v), c) == v % 0x1000
  {
    var bc := First(Fat12, c);
    var r := Put(Fat12, f, c, v);
    Nibbles(f[bc], f[bc + 1], v);
    if c % 2 == 1 {
      assert r[bc] as int == f[bc] as int % 0x10 + v % 0x10 * 0x10;
      assert r[bc + 1] as int == v / 0x10 % 0x100;
    } else {
      assert r[bc] as int == v % 0x100;
      assert r[bc + 1] as int == f[bc + 1] as int / 0x10 * 0x10 + v / 0x100 % 0x10;
    }
  }

  /** Two FAT12 entries share at most one byte: the middle byte of an even-odd pair. */
  lemma Overlap12(c: nat, d: nat)
    requires c != d
    ensures
      var bc, bd := First(Fat12, c), First(Fat12, d);
      || bd + 1 < bc
      || bc + 1 < bd
      || (bd == bc + 1 && c % 2 == 0 && d % 2 == 1)
      || (bc == bd + 1 && c % 2 == 1 && d % 2 == 0)
  {
  }

  /** The nibble of a shared byte that belongs to the other entry survives the store. */
  lemma OtherNibbles(a: byte, b: byte, v: nat)
    ensures (a as int / 0x10 * 0x10 + v / 0x100 % 0x10 + 0x100 * b) / 0x10 == (a as int + 0x100 * b) / 0x10
    ensures (a as int + 0x100 * (b as int % 0x10 + v % 0x10 * 0x10)) % 0x1000 == (a as int + 0x100 * b) % 0x1000
  {
    var (la, ha, lb, hb) := (a as int % 0x10, a as int / 0x10, b as int % 0x10, b as int / 0x10);
    Modulo(ha + 0x10 * b, v / 0x100 % 0x10, 0x10);
    Modulo(ha + 0x10 * b, la, 0x10);
    Modulo(v % 0x10, a as int + 0x100 * lb, 0x1000);
    Modulo(hb, a as int + 0x100 * lb, 0x1000);
  }

  lemma GetPut12Other(f: seq<byte>, c: nat, v: dword, d: nat)
    requires Past(Fat12, c) <= |f| && Past(Fat12, d) <= |f| && c != d
    ensures Get(Fat12, Put(Fat12, f, c, v), d) == Get(Fat12, f, d)
  {
    Overlap12(c, d);
    var bc, bd := First(Fat12, c), First(Fat12, d);
    var r := Put(Fat12, f, c, v);
    if bd == bc + 1 {
      OtherNibbles(f[bd], r[bd + 1], v);
      assert r[bd] as int == f[bd] as int / 0x10 * 0x10 + v / 0x100 % 0x10 && r[bd + 1] == f[bd + 1];
    } else if bc == bd + 1 {
      OtherNibbles(r[bd], f[bc], v);
      assert r[bc] as int == f[bc] as int % 0x10 + v % 0x10 * 0x10 && r[bd] == f[bd];
    } else {
      assert r[bd] == f[bd] && r[bd + 1] == f[bd + 1];
    }
  }

  lemma GetPut12(t: SubType, f: seq<byte>, c: nat, v: dword, d: nat)
    requires t == Fat12 && Past(t, c) <= |f| && Past(t, d) <= |f|
    ensures Get(t, Put(t, f, c, v), d) == if d == c then Cut(t, v) else Get(t, f, d)
  {
    if d == c { GetPut12Same(f, c, v); } else { GetPut12Other(f, c, v, d); }
  }

  lemma GetPut16(t: SubType, f: seq<byte>, c: nat, v: dword, d: nat)
    requires t == Fat16 && Past(t, c) <= |f| && Past(t, d) <= |f|
    ensures Get(t, Put(t, f, c, v), d) == if d == c then Cut(t, v) else Get(t, f, d)
  {
  }

  lemma GetPut32Same(f: seq<byte>, c: nat, v: dword)
    requires Past(Fat32, c) <= |f|
    ensures Get(Fat32, Put(Fat32, f, c, v), c) == v % 0x1000_0000
    ensures LdDword(Put(Fat32, f, c, v), 4 * c) / 0x1000_0000 == Or4(v / 0x1000_0000, LdDword(f, 4 * c) / 0x1000_0000)
  {
    hide Or4, LdDword;
    var top := Or4(v / 0x1000_0000, LdDword(f, 4 * c) / 0x1000_0000);
    Modulo(top, v % 0x1000_0000, 0x1000_0000);
    assert LdDword(StDword(f, 4 * c, Merged(v, LdDword(f, 4 * c))), 4 * c) == Merged(v, LdDword(f, 4 * c));
  }

  lemma GetPut32Other(f: seq<byte>, c: nat, v: dword, d: nat)
    requires Past(Fat32, c) <= |f| && Past(Fat32, d) <= |f| && c != d
    ensures Get(Fat32, Put(Fat32, f, c, v), d) == Get(Fat32, f, d)
  {
  }

  lemma GetPut32(t: SubType, f: seq<byte>, c: nat, v: dword, d: nat)
    requires t == Fat32 && Past(t, c) <= |f| && Past(t, d) <= |f|
    ensures Get(t, Put(t, f, c, v), d) == if d == c then Cut(t, v) else Get(t, f, d)
  {
    if d == c { GetPut32Same(f, c, v); } else { GetPut32Other(f, c, v, d); }
  }

  /** Reading an entry back gives the value cut to the entry width; every other entry, even a FAT12
      neighbour in the same byte, reads as before. */
  lemma GetPut(t: SubType, f: seq<byte>, c: nat, v: dword, d: nat)
    requires Past(t, c) <= |f| && Past(t, d) <= |f|
    ensures Get(t, Put(t, f, c, v), d) == if d == c then Cut(t, v) else Get(t, f, d)
  {
    hide Get, Put;
    if t == Fat12 {
      GetPut12(t, f, c, v, d);
    } else if t == Fat16 {
      GetPut16(t, f, c, v, d);
    } else {
      GetPut32(t, f, c, v, d);
    }
  }

  /** Every byte outside the entry is kept, and so are the four reserved bits of a FAT32 entry, except that those set in
      the value are set. */
  lemma PutKeeps(t: SubType, f: seq<byte>, c: nat, v: dword)
    requires Past(t, c) <= |f|
    ensures forall k :: 0 <= k < |f| && !(First(t, c) <= k < Past(t, c)) ==> Put(t, f, c, v)[k] == f[k]
    ensures t.Fat32? ==>
      LdDword(Put(t, f, c, v), 4 * c) / 0x1000_0000 == Or4(v / 0x1000_0000, LdDword(f, 4 * c) / 0x1000_0000)
    ensures t.Fat32? && v <= END_OF_CHAIN ==>
      LdDword(Put(t, f, c, v), 4 * c) / 0x1000_0000 == LdDword(f, 4 * c) / 0x1000_0000
  {
    match t
    case Fat12 =>
    case Fat16 =>
    case Fat32 =>
      GetPut32Same(f, c, v);
  }

  /** The entries of the first n clusters of a FAT, the two reserved ones included. */
  function Entries(t: SubType, f: seq<byte>, n: nat): (r: seq<nat>)
    requires n > 0 ==> Past(t, n - 1) <= |f|
    ensures |r| == n
    ensures forall c :: 0 <= c < n ==> Past(t, c) <= |f| && r[c] == Get(t, f, c)
  {
    seq(n, c requires 0 <= c < n => Get(t, f, c))
  }

  lemma EntriesPut(t: SubType, f: seq<byte>, n: nat, c: nat, v: dword)
    requires c < n && Past(t, n - 1) <= |f|
    ensures Past(t, c) <= |f|
    ensures Entries(t, Put(t, f, c, v), n) == Entries(t, f, n)[c := Cut(t, v)]
  {
    forall d | 0 <= d < n
      ensures Past(t, d) <= |f| && Get(t, Put(t, f, c, v), d) == if d == c then Cut(t, v) else Get(t, f, d)
    {
      GetPut(t, f, c, v, d);
    }
  }
}
