/**
 Page table entries as 32-bit words (32-bit paging, section 4.3 of the Intel SDM Vol. 3A):
 the macros of `mm.h` and `mm.c` over the flag, available and base bits.
 Bit 0 is P, 1 RW, 2 US, 3 PWT, 5 accessed, 6 dirty, 9 to 11 AVL, 12 to 31 the base.
 */
module PteBits {

  type Word = bv32

  // The kind macros: AVL 0 assigned, 1 requested, 2 shared, 3 copy-on-write, 4 swapped.
  predicate IsAssigned(w: Word) { w & 0xE00 == 0 && w & 0x1 != 0 }
  predicate IsRequested(w: Word) { w & 0xE00 == 0x200 && w & 0x1 == 0 }
  predicate IsShared(w: Word) { w & 0xE00 == 0x400 && w & 0x1 != 0 }
  predicate IsCow(w: Word) { w & 0xE00 == 0x600 && w & 0x1 != 0 && w & 0x2 == 0 }
  predicate IsSwapped(w: Word) { w & 0xE00 == 0x800 && w & 0x1 == 0 }
  predicate IsPresent(w: Word) { w & 0x1 != 0 }
  predicate IsUser(w: Word) { w & 0x4 != 0 }
  predicate IsWritable(w: Word) { w & 0x2 != 0 }

  function MarkAsCow(w: Word): Word { ((w & 0xFFFF_F1FF) | 0x600) & 0xFFFF_FFFD }
  function MarkAsShared(w: Word): Word { (w & 0xFFFF_F1FF) | 0x400 }
  /** `CLEAR_PTE_AVL_BITS(w)` with `PTE_RW` set, for the last process that maps a copy-on-write page. */
  function MarkAsOwned(w: Word): Word { (w & 0xFFFF_F1FF) | 0x2 }
  function MarkAsSwapped(w: Word): Word { (w & 0xFFFF_F1FF) | 0x800 }

  /** `PTE_PAGE_BASE(w) >> 12`. */
  function Payload(w: Word): bv20 { ((w & 0xFFFF_F000) >> 12) as bv20 }

  /** The word `new_user_page` writes. */
  function UserWord(frame: bv20): Word { ((frame as bv32) << 12) | 0xF }

  /** The word `map_kernel_pages` writes. */
  function KernelWord(page: bv20): Word { ((page as bv32) << 12) | 0xB }

  /** The word `mm_swap_page_out` writes. */
  function SwappedWord(id: bv20): Word { MarkAsSwapped(0) | ((id as bv32) << 12) }

  /** A present user page with the given available bits. */
  function PresentWord(frame: bv20, avl: bv3, writable: bool): Word {
    ((frame as bv32) << 12) | ((avl as bv32) << 9) | (if writable then 0xF else 0xD)
  }

  lemma PresentBits(frame: bv20, avl: bv3, writable: bool)
    ensures var w := PresentWord(frame, avl, writable);
      && w & 0xE00 == (avl as bv32) << 9
      && IsPresent(w) && IsUser(w) && (IsWritable(w) <==> writable)
  {
  }

  lemma PresentPayload(frame: bv20, avl: bv3, writable: bool)
    ensures Payload(PresentWord(frame, avl, writable)) == frame
  {
  }

  lemma OtherPayloads(x: bv20)
    ensures Payload(SwappedWord(x)) == x
    ensures Payload(KernelWord(x)) == x
    ensures UserWord(x) == PresentWord(x, 0, true)
  {
  }

  lemma PresentKinds(frame: bv20, avl: bv3, writable: bool)
    ensures var w := PresentWord(frame, avl, writable);
      && (IsAssigned(w) <==> avl == 0) && !IsRequested(w)
      && (IsShared(w) <==> avl == 2) && (IsCow(w) <==> avl == 3 && !writable) && !IsSwapped(w)
      && w != 0
  {
    PresentBits(frame, avl, writable);
    assert (avl as bv32) << 9 == 0 <==> avl == 0;
    assert (avl as bv32) << 9 == 0x400 <==> avl == 2;
    assert (avl as bv32) << 9 == 0x600 <==> avl == 3;
  }

  lemma SwappedKinds(id: bv20)
    ensures var w := SwappedWord(id);
      IsSwapped(w) && !IsPresent(w) && !IsUser(w) && !IsRequested(w) && w != 0
  {
  }

  lemma KernelKinds(page: bv20)
    ensures var w := KernelWord(page);
      IsAssigned(w) && !IsUser(w) && !IsShared(w) && !IsCow(w) && w != 0
  {
  }

  /** What the marking macros do to a present page, whatever kind it had. */
  lemma CowBits(frame: bv20, avl: bv3, writable: bool)
    ensures MarkAsCow(PresentWord(frame, avl, writable)) == PresentWord(frame, 3, false)
  {
  }

  lemma SharedBits(frame: bv20, avl: bv3, writable: bool)
    ensures MarkAsShared(PresentWord(frame, avl, writable)) == PresentWord(frame, 2, writable)
  {
  }

  lemma OwnedBits(frame: bv20, avl: bv3, writable: bool)
    ensures MarkAsOwned(PresentWord(frame, avl, writable)) == PresentWord(frame, 0, true)
  {
  }

  /** `PTE_AVL`, read back: the kind is the number in bits 9 to 11, together with P and RW. */
  lemma AvlCodes(w: Word)
    ensures var avl := (w >> 9) & 0x7;
      && (IsAssigned(w) <==> avl == 0 && IsPresent(w))
      && (IsRequested(w) <==> avl == 1 && !IsPresent(w))
      && (IsShared(w) <==> avl == 2 && IsPresent(w))
      && (IsCow(w) <==> avl == 3 && IsPresent(w) && !IsWritable(w))
      && (IsSwapped(w) <==> avl == 4 && !IsPresent(w))
  {
    AvlBits(w);
  }

  lemma AvlBits(w: Word)
    ensures w & 0xE00 == ((w >> 9) & 0x7) << 9
  {
  }

  /** No word, whatever its bits, has two kinds. */
  lemma KindsExclude(w: Word)
    ensures IsAssigned(w) ==> !IsRequested(w) && !IsShared(w) && !IsCow(w) && !IsSwapped(w)
    ensures IsRequested(w) ==> !IsShared(w) && !IsCow(w) && !IsSwapped(w)
    ensures IsShared(w) ==> !IsCow(w) && !IsSwapped(w)
    ensures IsCow(w) ==> !IsSwapped(w)
  {
  }

  /** The accessed and dirty bits, which the processor sets by itself, disturb no kind. */
  lemma HardwareKinds(w: Word, h: Word)
    requires h & 0xFFFF_FF9F == 0
    ensures IsAssigned(w | h) == IsAssigned(w)
    ensures IsRequested(w | h) == IsRequested(w)
    ensures IsShared(w | h) == IsShared(w)
    ensures IsCow(w | h) == IsCow(w)
    ensures IsSwapped(w | h) == IsSwapped(w)
  {
    assert (w | h) & 0xE00 == w & 0xE00;
    assert (w | h) & 0x1 == w & 0x1;
    assert (w | h) & 0x2 == w & 0x2;
  }

  /** Nor the frame, and they survive marking. */
  lemma HardwarePayload(w: Word, h: Word)
    requires h & 0xFFFF_FF9F == 0
    ensures Payload(w | h) == Payload(w)
  {
  }

  lemma HardwareCow(w: Word, h: Word)
    requires h & 0xFFFF_FF9F == 0
    ensures MarkAsCow(w | h) == MarkAsCow(w) | h
  {
  }

  lemma HardwareShared(w: Word, h: Word)
    requires h & 0xFFFF_FF9F == 0
    ensures MarkAsShared(w | h) == MarkAsShared(w) | h
  {
  }

  // ---- linear addresses ---------------------------------------------------------------------

  function Pdi(a: Word): Word { (a & 0xFFC0_0000) >> 22 }
  function Pti(a: Word): Word { (a & 0x003F_F000) >> 12 }
  function AlignToPageStart(a: Word): Word { a & 0xFFFF_F000 }

  /** Directory and table index make up the page's address. */
  lemma AddressParts(a: Word)
    ensures (Pdi(a) << 22) | (Pti(a) << 12) == AlignToPageStart(a)
  {
  }

  lemma AlignedParts(a: Word)
    ensures Pdi(AlignToPageStart(a)) == Pdi(a) && Pti(AlignToPageStart(a)) == Pti(a)
  {
  }

  /** Two addresses use the same entry of the same table exactly when they are on the same page. */
  lemma EntryOfAddress(a: Word, b: Word)
    ensures Pdi(a) == Pdi(b) && Pti(a) == Pti(b) <==> AlignToPageStart(a) == AlignToPageStart(b)
  {
    AddressParts(a);
    AddressParts(b);
    AlignedParts(a);
    AlignedParts(b);
  }
}
