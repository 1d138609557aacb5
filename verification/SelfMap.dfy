/** The recursive self-map: the directory is its own page table at 0xC0000000, so that table entries have virtual
    addresses. Addresses are 32-bit words. */
module SelfMap {
  import opened Common
  import opened Paging

  type address = a: int | 0 <= a < 0x1_0000_0000

  const TABLE_AREA := 0xC000_0000
  const DIRECTORY := 0xC030_0000
  const SELF := 768 // the directory slot of TABLE_AREA

  function Pdx(a: address): nat {
    a / 0x40_0000
  }

  function Ptx(a: address): nat {
    a / 0x1000 % 1024
  }

  /** MmGetPteAddress. */
  function PteAddress(a: address): address {
    a / 0x1000 * 4 + TABLE_AREA
  }

  /** MmGetPdeAddress. */
  function PdeAddress(a: address): address {
    a / 0x40_0000 * 4 + DIRECTORY
  }

  /** MiGetVitualAddressFromPTE. */
  function AddressFromPte(a: address): address {
    a * 0x400 % 0x1_0000_0000
  }

  /** What an entry says; the directory d names itself in its slot SELF. */
  function FrameIn(pte: Ptes, d: nat, k: Slot): Option<nat> {
    if k == Slot(d, SELF) then Some(d) else if k in pte then Some(pte[k].frame) else None
  }

  /** The word of physical memory behind a virtual address, as the processor walks the tables of directory d. */
  function WordAt(pte: Ptes, d: nat, a: address): Option<Slot> {
    var t := FrameIn(pte, d, Slot(d, Pdx(a)));
    if t == None then None
    else
      var p := FrameIn(pte, d, Slot(t.value, Ptx(a)));
      if p == None then None else Some(Slot(p.value, a % 0x1000 / 4))
  }

  /** The address of an entry, taken apart. */
  lemma PteAddressParts(a: address)
    ensures Pdx(PteAddress(a)) == SELF && Ptx(PteAddress(a)) == Pdx(a) && PteAddress(a) % 0x1000 / 4 == Ptx(a)
  {
    var p := a / 0x1000;
    var q, r := p / 1024, p % 1024;
    assert q == Pdx(a) && p == 1024 * q + r;
    assert PteAddress(a) == 0x1000 * (1024 * SELF + q) + 4 * r;
  }

  /** The address that MmGetPteAddress gives leads to the page table entry of a: entry Ptx(a) of the table that slot
      Pdx(a) of the directory names; there is no word behind it exactly if that slot is empty. */
  lemma PteAddressReaches(pte: Ptes, d: nat, a: address)
    ensures
      WordAt(pte, d, PteAddress(a)) ==
      match FrameIn(pte, d, Slot(d, Pdx(a))) case None => None case Some(t) => Some(Slot(t, Ptx(a)))
  {
    PteAddressParts(a);
  }

  /** The address that MmGetPdeAddress gives leads to slot Pdx(a) of the directory. */
  lemma PdeAddressReaches(pte: Ptes, d: nat, a: address)
    ensures WordAt(pte, d, PdeAddress(a)) == Some(Slot(d, Pdx(a)))
  {
  }

  /** The directory entry of a is the page table entry of the page table of a. */
  lemma PdeIsPteOfPte(a: address)
    ensures PdeAddress(a) == PteAddress(PteAddress(a))
  {
    var q := a / 0x1000;
    assert q / 0x400 == a / 0x40_0000;
    FourTimes(q);
  }

  lemma FourTimes(q: nat)
    ensures (4 * q + TABLE_AREA) / 0x1000 == q / 0x400 + TABLE_AREA / 0x1000
  {
  }

  /** The page is found from the address of its entry, modulo the word size. */
  lemma AddressComesBack(a: address)
    ensures AddressFromPte(PteAddress(a)) == a - a % 0x1000
  {
  }

  /** Removing the page at the address of the page table of a clears the directory entry of a, and nothing else. */
  lemma RemovingTableClearsSlot(pte: Ptes, d: nat, a: address)
    requires Slot(d, Pdx(a)) in pte && Pdx(a) != SELF
    ensures
      var k := WordAt(pte, d, PteAddress(PteAddress(a)));
      && k == Some(Slot(d, Pdx(a)))
      && WordAt(Drop(pte, k.value), d, PteAddress(a)) == None
      && forall b: address :: Pdx(b) != Pdx(a) ==>
           WordAt(Drop(pte, k.value), d, PteAddress(b)) == WordAt(pte, d, PteAddress(b))
  {
    PdeIsPteOfPte(a);
    PdeAddressReaches(pte, d, a);
    hide Drop, Pdx, Ptx, PteAddress, PdeAddress, WordAt;
    var now := Drop(pte, Slot(d, Pdx(a)));
    PteAddressReaches(now, d, a);
    forall b: address | Pdx(b) != Pdx(a) ensures WordAt(now, d, PteAddress(b)) == WordAt(pte, d, PteAddress(b)) {
      PteAddressReaches(now, d, b);
      PteAddressReaches(pte, d, b);
    }
  }
}
