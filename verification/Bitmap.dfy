/** Bitmaps as arrays of 32-bit words, and the page ranges that the system PTE allocator hands out with one. */
module Bitmap {

  type word = bv32

  const BITMAP_ERROR := 0xFFFF_FF9C // -100 as an unsigned word

  // The word operations by name, so that proofs need not look into them.

  function And(x: word, y: word): word {
    x & y
  }

  function AndNot(x: word, y: word): word {
    x & !y
  }

  function Or(x: word, y: word): word {
    x | y
  }

  function Xor(x: word, y: word): word {
    x ^ y
  }

  /** BmBitMask. */
  function Mask(i: nat): word
    requires i < 32
  {
    (1 as word) << i
  }

  predicate Bit(x: word, i: nat)
    requires i < 32
  {
    And(x, Mask(i)) != 0
  }

  function Known(i: nat): word
    requires i < 32
  {
    if i == 0 then 0x1 else if i == 1 then 0x2 else if i == 2 then 0x4 else if i == 3 then 0x8 else
    if i == 4 then 0x10 else if i == 5 then 0x20 else if i == 6 then 0x40 else if i == 7 then 0x80 else
    if i == 8 then 0x100 else if i == 9 then 0x200 else if i == 10 then 0x400 else if i == 11 then 0x800 else
    if i == 12 then 0x1000 else if i == 13 then 0x2000 else if i == 14 then 0x4000 else if i == 15 then 0x8000 else
    if i == 16 then 0x10000 else if i == 17 then 0x20000 else if i == 18 then 0x40000 else if i == 19 then 0x80000 else
    if i == 20 then 0x100000 else if i == 21 then 0x200000 else if i == 22 then 0x400000
      else if i == 23 then 0x800000 else
    if i == 24 then 0x1000000 else if i == 25 then 0x2000000 else if i == 26 then 0x4000000
      else if i == 27 then 0x8000000 else
    if i == 28 then 0x10000000 else if i == 29 then 0x20000000 else if i == 30 then 0x40000000 else 0x80000000
  }

  lemma MaskLow(i: nat)
    requires i < 16
    ensures Mask(i) == Known(i)
  {
    if i == 0 {} else if i == 1 {} else if i == 2 {} else if i == 3 {} else if i == 4 {} else
    if i == 5 {} else if i == 6 {} else if i == 7 {} else if i == 8 {} else if i == 9 {} else
    if i == 10 {} else if i == 11 {} else if i == 12 {} else if i == 13 {} else if i == 14 {} else {}
  }

  lemma MaskHigh(i: nat)
    requires 16 <= i < 32
    ensures Mask(i) == Known(i)
  {
    if i == 16 {} else if i == 17 {} else if i == 18 {} else if i == 19 {} else
    if i == 20 {} else if i == 21 {} else if i == 22 {} else if i == 23 {} else if i == 24 {} else
    if i == 25 {} else if i == 26 {} else if i == 27 {} else if i == 28 {} else if i == 29 {} else
    if i == 30 {} else {}
  }

  lemma MaskKnown(i: nat)
    requires i < 32
    ensures Mask(i) == Known(i)
  {
    hide Mask, Known;
    if i < 16 {
      MaskLow(i);
    } else {
      MaskHigh(i);
    }
  }

  lemma LowApart(i: nat, j: nat)
    requires i < 16 && j < 32 && i != j
    ensures Known(i) & Known(j) == 0
  {
  }

  lemma HighApart(i: nat, j: nat)
    requires 16 <= i < 32 && j < 32 && i != j
    ensures Known(i) & Known(j) == 0
  {
  }

  lemma Apart(i: nat, j: nat)
    requires i < 32 && j < 32 && i != j
    ensures And(Known(i), Known(j)) == 0
  {
    hide Known;
    if i < 16 {
      LowApart(i, j);
    } else {
      HighApart(i, j);
    }
  }

  lemma LowSingle(x: word, i: nat)
    requires i < 16
    ensures Known(i) != 0 && (And(x, Known(i)) == 0 || And(x, Known(i)) == Known(i))
  {
  }

  lemma HighSingle(x: word, i: nat)
    requires 16 <= i < 32
    ensures Known(i) != 0 && (And(x, Known(i)) == 0 || And(x, Known(i)) == Known(i))
  {
  }

  lemma Single(x: word, i: nat)
    requires i < 32
    ensures Known(i) != 0 && (And(x, Known(i)) == 0 || And(x, Known(i)) == Known(i))
  {
    hide Known;
    if i < 16 {
      LowSingle(x, i);
    } else {
      HighSingle(x, i);
    }
  }

  lemma OrElsewhere(x: word, m: word, n: word)
    requires And(m, n) == 0
    ensures And(Or(x, m), n) == And(x, n)
  {
  }

  lemma AndNotElsewhere(x: word, m: word, n: word)
    requires And(m, n) == 0
    ensures And(AndNot(x, m), n) == And(x, n)
  {
  }

  lemma XorElsewhere(x: word, m: word, n: word)
    requires And(m, n) == 0
    ensures And(Xor(x, m), n) == And(x, n)
  {
  }

  lemma OrHere(x: word, m: word)
    ensures And(Or(x, m), m) == m
  {
  }

  lemma AndNotHere(x: word, m: word)
    ensures And(AndNot(x, m), m) == 0
  {
  }

  lemma XorClear(x: word, m: word)
    requires And(x, m) == 0
    ensures And(Xor(x, m), m) == m
  {
  }

  lemma XorSet(x: word, m: word)
    requires And(x, m) == m
    ensures And(Xor(x, m), m) == 0
  {
  }

  /** The mask of a bit is one bit, and masks of different bits have none in common. */
  lemma Masks(x: word, i: nat, j: nat)
    requires i < 32 && j < 32
    ensures Mask(i) != 0 && (And(x, Mask(i)) == 0 || And(x, Mask(i)) == Mask(i))
    ensures i != j ==> And(Mask(i), Mask(j)) == 0
  {
    hide And, Mask, Known;
    MaskKnown(i);
    MaskKnown(j);
    Single(x, i);
    if i != j {
      Apart(i, j);
    }
  }

  lemma OrBit(x: word, i: nat, j: nat)
    requires i < 32 && j < 32
    ensures Bit(Or(x, Mask(i)), j) <==> i == j || Bit(x, j)
  {
    hide And, Or, Mask;
    Masks(x, i, j);
    if i == j {
      OrHere(x, Mask(i));
    } else {
      OrElsewhere(x, Mask(i), Mask(j));
    }
  }

  lemma AndNotBit(x: word, i: nat, j: nat)
    requires i < 32 && j < 32
    ensures Bit(AndNot(x, Mask(i)), j) <==> i != j && Bit(x, j)
  {
    hide And, AndNot, Mask;
    Masks(x, i, j);
    if i == j {
      AndNotHere(x, Mask(i));
    } else {
      AndNotElsewhere(x, Mask(i), Mask(j));
    }
  }

  lemma XorBit(x: word, i: nat, j: nat)
    requires i < 32 && j < 32
    ensures Bit(Xor(x, Mask(i)), j) <==> if i == j then !Bit(x, j) else Bit(x, j)
  {
    hide And, Xor, Mask;
    Masks(x, i, j);
    if i != j {
      XorElsewhere(x, Mask(i), Mask(j));
    } else if And(x, Mask(i)) == 0 {
      XorClear(x, Mask(i));
    } else {
      XorSet(x, Mask(i));
    }
  }

  /** s with the cnt elements from start on set to b. */
  function Filled(s: seq<bool>, start: nat, cnt: nat, b: bool): (r: seq<bool>)
    requires start + cnt <= |s|
    ensures |r| == |s|
    ensures forall k :: 0 <= k < |s| ==> r[k] == if start <= k < start + cnt then b else s[k]
  {
    s[..start] + seq(cnt, _ => b) + s[start + cnt..]
  }

  /** Are the cnt elements from start on all b? */
  predicate AllAre(s: seq<bool>, start: nat, cnt: nat, b: bool)
    requires start + cnt <= |s|
  {
    forall k :: start <= k < start + cnt ==> s[k] == b
  }

  function Number(s: seq<bool>, start: nat, cnt: nat, b: bool): nat
    requires start + cnt <= |s|
  {
    if cnt == 0 then 0 else Number(s, start, cnt - 1, b) + if s[start + cnt - 1] == b then 1 else 0
  }

  /** It is how often b occurs in the run. */
  lemma {:induction false} NumberIs(s: seq<bool>, start: nat, cnt: nat, b: bool)
    requires start + cnt <= |s|
    ensures Number(s, start, cnt, b) == multiset(s[start..start + cnt])[b]
    decreases cnt
  {
    if cnt > 0 {
      NumberIs(s, start, cnt - 1, b);
      assert s[start..start + cnt] == s[start..start + cnt - 1] + [s[start + cnt - 1]];
    }
  }

  lemma EmptyFits(s: seq<bool>, start: nat, b: bool)
    requires start <= |s|
    ensures AllAre(s, start, 0, b)
  {
  }

  lemma FillNone(s: seq<bool>, start: nat, b: bool)
    requires start <= |s|
    ensures Filled(s, start, 0, b) == s
  {
  }

  class Bits {
    var bitCount: nat
    const bits: array<word>

    ghost predicate Valid()
      reads this
    {
      bitCount <= 32 * bits.Length && bitCount < BITMAP_ERROR
    }

    predicate Has(i: nat)
      reads this, bits
      requires i < 32 * bits.Length
    {
      Bit(bits[i / 32], i % 32)
    }

    /** The bitmap as a sequence of booleans. */
    ghost function Value(): (s: seq<bool>)
      reads this, bits
      requires Valid()
      ensures |s| == bitCount
    {
      seq(bitCount, i requires 0 <= i < bitCount && Valid() reads this, bits => Has(i))
    }

    /** BmBitmapCreateInBuffer, in a buffer of n words. */
    constructor (count: nat, n: nat)
      requires count <= 32 * n && count < BITMAP_ERROR
      ensures Valid() && fresh(bits) && bitCount == count && Value() == seq(count, _ => false)
    {
      bitCount := count;
      bits := new word[n];
      new;
      SetAll(false);
    }

    /** BmBitmapMark. */
    method Mark(i: nat)
      requires Valid() && i < bitCount
      modifies bits
      ensures Value() == old(Value())[i := true]
    {
      hide Bit, Mask, Or, AndNot, Xor;
      var idx, mask := i / 32, Mask(i % 32);
      forall j: nat | j < 32 {
        OrBit(bits[idx], i % 32, j);
      }
      bits[idx] := Or(bits[idx], mask);
      Changed(old(Value()), i, true);
    }

    /** BmBitmapReset. */
    method Reset(i: nat)
      requires Valid() && i < bitCount
      modifies bits
      ensures Value() == old(Value())[i := false]
    {
      hide Bit, Mask, Or, AndNot, Xor;
      var idx, mask := i / 32, Mask(i % 32);
      forall j: nat | j < 32 {
        AndNotBit(bits[idx], i % 32, j);
      }
      bits[idx] := AndNot(bits[idx], mask);
      Changed(old(Value()), i, false);
    }

    /** BmBitmapFlip. */
    method Flip(i: nat)
      requires Valid() && i < bitCount
      modifies bits
      ensures Value() == old(Value())[i := !old(Value())[i]]
    {
      hide Bit, Mask, Or, AndNot, Xor;
      var idx, mask := i / 32, Mask(i % 32);
      forall j: nat | j < 32 {
        XorBit(bits[idx], i % 32, j);
      }
      bits[idx] := Xor(bits[idx], mask);
      Changed(old(Value()), i, !old(Value())[i]);
    }

    lemma Changed(was: seq<bool>, i: nat, b: bool)
      requires Valid() && |was| == bitCount && i < bitCount
      requires forall k: nat :: k < bitCount ==> Has(k) == if k == i then b else was[k]
      ensures Value() == was[i := b]
    {
    }

    /** BmBitmapTest. */
    method Test(i: nat) returns (b: bool)
      requires Valid() && i < bitCount
      ensures b == Value()[i]
    {
      b := And(bits[i / 32], Mask(i % 32)) != 0;
    }

    /** BmBitmapSet. */
    method Set(i: nat, b: bool)
      requires Valid() && i < bitCount
      modifies bits
      ensures Value() == old(Value())[i := b]
    {
      if b {
        Mark(i);
      } else {
        Reset(i);
      }
    }

    /** BmBitmapSetMultiple. */
    method SetMultiple(start: nat, cnt: nat, b: bool)
      requires Valid() && start + cnt <= bitCount
      modifies bits
      ensures Value() == Filled(old(Value()), start, cnt, b)
    {
      hide Bits.Value, Bits.Has;
      var i := 0;
      while i < cnt
        invariant i <= cnt && Value() == Filled(old(Value()), start, i, b)
      {
        Set(start + i, b);
        i := i + 1;
      }
    }

    /** BmBitmapSetAll. */
    method SetAll(b: bool)
      requires Valid()
      modifies bits
      ensures Value() == seq(bitCount, _ => b)
    {
      hide Bits.Value, Bits.Has;
      SetMultiple(0, bitCount, b);
    }

    /** BmBitmapCount. */
    method Count(start: nat, cnt: nat, b: bool) returns (n: nat)
      requires Valid() && start + cnt <= bitCount
      ensures n == Number(Value(), start, cnt, b) == multiset(Value()[start..start + cnt])[b]
    {
      hide Bits.Value, Bits.Has;
      NumberIs(Value(), start, cnt, b);
      n := 0;
      var i := 0;
      while i < cnt
        invariant i <= cnt && n == Number(Value(), start, i, b)
      {
        var v := Test(start + i);
        if v == b {
          n := n + 1;
        }
        i := i + 1;
      }
    }

    /** BmBitmapContains. */
    method Contains(start: nat, cnt: nat, b: bool) returns (r: bool)
      requires Valid() && start + cnt <= bitCount
      ensures r <==> !AllAre(Value(), start, cnt, !b)
    {
      hide Bits.Value, Bits.Has;
      var i := 0;
      while i < cnt
        invariant i <= cnt && AllAre(Value(), start, i, !b)
      {
        var v := Test(start + i);
        if v == b {
          return true;
        }
        i := i + 1;
      }
      r := false;
    }

    /** BmBitmapScan: the least fitting start, or BITMAP_ERROR exactly when there is none. An empty group fits
        anywhere, so it is found at `start`. */
    method Scan(start: nat, cnt: nat, b: bool) returns (r: nat)
      requires Valid() && start <= bitCount
      ensures r != BITMAP_ERROR ==>
        && start <= r && r + cnt <= bitCount && AllAre(Value(), r, cnt, b)
        && forall i: nat :: start <= i < r ==> !AllAre(Value(), i, cnt, b)
      ensures r == BITMAP_ERROR <==> forall i: nat :: start <= i && i + cnt <= bitCount ==> !AllAre(Value(), i, cnt, b)
      ensures cnt == 0 ==> r == start
    {
      hide Bits.Value, Bits.Has, AllAre;
      EmptyFits(Value(), start, b);
      if cnt <= bitCount {
        var last := bitCount - cnt;
        var i := start;
        while i <= last
          invariant start <= i && forall j: nat :: start <= j < i && j + cnt <= bitCount ==> !AllAre(Value(), j, cnt, b)
          invariant cnt == 0 ==> i == start
        {
          var other := Contains(i, cnt, !b);
          if !other {
            return i;
          }
          i := i + 1;
        }
      }
      r := BITMAP_ERROR;
    }

    /** BmBitmapScanAndFlip: flips exactly the group that Scan finds. An empty group is at `start`, which is the 0 that
        its comment promises exactly if start is 0. */
    method ScanAndFlip(start: nat, cnt: nat, b: bool) returns (r: nat)
      requires Valid() && start <= bitCount
      modifies bits
      ensures r != BITMAP_ERROR ==>
        && start <= r && r + cnt <= bitCount && AllAre(old(Value()), r, cnt, b)
        && (forall i: nat :: start <= i < r ==> !AllAre(old(Value()), i, cnt, b))
        && Value() == Filled(old(Value()), r, cnt, !b)
      ensures r == BITMAP_ERROR ==> Value() == old(Value())
      ensures r == BITMAP_ERROR <==> forall i: nat :: start <= i && i + cnt <= bitCount ==>
        !AllAre(old(Value()), i, cnt, b)
      ensures cnt == 0 ==> r == start && Value() == old(Value())
    {
      hide Bits.Value, Bits.Has, AllAre;
      FillNone(Value(), start, !b);
      r := Scan(start, cnt, b);
      if r != BITMAP_ERROR {
        SetMultiple(r, cnt, !b);
      }
    }
  }

  /** An empty group looked for from bit 1 on is not found at 0. */
  method EmptyGroupIsAtStart() returns (r: nat)
    ensures r == 1
  {
    var b := new Bits(1, 1);
    r := b.ScanAndFlip(1, 0, false);
  }

  /** Pages from `start` on, `count` of them. */
  datatype Range = Range(start: nat, count: nat)

  predicate InRange(r: Range, i: nat) {
    r.start <= i < r.start + r.count
  }

  /** Live ranges have no page in common, and the bitmap has exactly their pages. */
  ghost predicate Covers(s: seq<bool>, live: set<Range>) {
    && (forall a, b, i: nat :: a in live && b in live && InRange(a, i) && InRange(b, i) ==> a == b)
    && (forall r :: r in live ==> r.start + r.count <= |s|)
    && (forall i :: 0 <= i < |s| ==> (s[i] <==> Held(live, i)))
  }

  ghost predicate Held(live: set<Range>, i: nat) {
    exists r :: r in live && InRange(r, i)
  }

  lemma CoversMore(s: seq<bool>, live: set<Range>, r: Range)
    requires Covers(s, live) && r.start + r.count <= |s| && AllAre(s, r.start, r.count, false)
    ensures Covers(Filled(s, r.start, r.count, true), live + {r})
    ensures forall a, i: nat :: a in live && InRange(a, i) ==> !InRange(r, i)
    ensures Filled(Filled(s, r.start, r.count, true), r.start, r.count, false) == s
  {
    forall a, i: nat | a in live && InRange(a, i) ensures !InRange(r, i) {
      assert Held(live, i) && s[i];
    }
    var t := Filled(s, r.start, r.count, true);
    forall i | 0 <= i < |t| ensures t[i] <==> Held(live + {r}, i) {
      if Held(live, i) {
        var a :| a in live && InRange(a, i);
        assert a in live + {r};
      }
      assert r in live + {r};
    }
  }

  lemma CoversLess(s: seq<bool>, live: set<Range>, r: Range)
    requires Covers(s, live) && r in live
    ensures Covers(Filled(s, r.start, r.count, false), live - {r})
  {
  }

  /** The system PTE area (MmAllocateSystemPtes, MmFreeSystemPtes), without the mapping of the pages. */
  class SystemPtes {
    const bitmap: Bits
    ghost var live: set<Range>

    ghost predicate Valid()
      reads this, bitmap, bitmap.bits
    {
      bitmap.Valid() && Covers(bitmap.Value(), live)
    }

    constructor (pages: nat)
      requires pages < BITMAP_ERROR
      ensures Valid() && fresh(bitmap) && fresh(bitmap.bits) && live == {} && bitmap.bitCount == pages
    {
      var b := new Bits(pages, pages / 32 + 1);
      bitmap, live := b, {};
    }

    /** Takes the first free run of pages. It overlaps no live range, and there is one exactly if the bitmap has a free
        run. */
    method Allocate(count: nat) returns (index: nat)
      requires Valid()
      modifies this, bitmap.bits
      ensures Valid()
      ensures index == BITMAP_ERROR ==> live == old(live) && bitmap.Value() == old(bitmap.Value())
      ensures index == BITMAP_ERROR <==>
        forall i: nat :: i + count <= bitmap.bitCount ==> !AllAre(old(bitmap.Value()), i, count, false)
      ensures index != BITMAP_ERROR ==>
        && live == old(live) + {Range(index, count)}
        && (forall r, i: nat :: r in old(live) && InRange(r, i) ==> !InRange(Range(index, count), i))
        && index + count <= bitmap.bitCount && AllAre(old(bitmap.Value()), index, count, false)
        && (forall i: nat :: i < index ==> !AllAre(old(bitmap.Value()), i, count, false))
        && (forall i: nat :: i < bitmap.bitCount ==>
              (bitmap.Value()[i] <==> InRange(Range(index, count), i) || old(bitmap.Value()[i])))
        && Filled(bitmap.Value(), index, count, false) == old(bitmap.Value())
    {
      hide Bits.Value, Bits.Has, AllAre, Covers;
      ghost var was := bitmap.Value();
      index := bitmap.ScanAndFlip(0, count, false);
      if index != BITMAP_ERROR {
        CoversMore(was, live, Range(index, count));
        live := live + {Range(index, count)};
      }
    }

    /** Gives a live range back; right after its allocation this restores the bitmap. */
    method Free(index: nat, count: nat)
      requires Valid() && Range(index, count) in live
      modifies this, bitmap.bits
      ensures Valid() && live == old(live) - {Range(index, count)}
      ensures bitmap.Value() == Filled(old(bitmap.Value()), index, count, false)
    {
      hide Bits.Value, Bits.Has;
      CoversLess(bitmap.Value(), live, Range(index, count));
      bitmap.SetMultiple(index, count, false);
      live := live - {Range(index, count)};
    }
  }
}
