/**
 The page table words of `PteBits` stand for the entries of `PagingModel`: every macro
 tests on the word what the memory manager tests on the entry.
 */
module PteWord {
  import B = PteBits
  import opened PagingModel

  /** Frame numbers and swap ids take the upper twenty bits. */
  predicate Fits(v: nat, e: Pte) {
    && v < 0x10_0000
    && (e.Present? ==> e.frame < 0x10_0000)
    && (e.Swapped? ==> e.id < 0x10_0000)
  }

  function Avl(k: Kind): bv3 {
    match k case Assigned => 0 case Shared => 2 case Cow => 3
  }

  /** The word that stands for an entry of page `v`. */
  function Encode(v: nat, e: Pte): B.Word
    requires Fits(v, e)
  {
    match e
    case Invalid => 0
    case Kernel => B.KernelWord(v as bv20)
    case Requested => 0x200
    case Swapped(id) => B.SwappedWord(id as bv20)
    case Present(f, k, w) => B.PresentWord(f as bv20, Avl(k), w)
  }

  /** The macros tell the kinds of entries apart. */
  lemma KindTests(v: nat, e: Pte)
    requires Fits(v, e)
    ensures var w := Encode(v, e);
      && (B.IsAssigned(w) <==> e.Kernel? || (e.Present? && e.kind.Assigned?))
      && (B.IsRequested(w) <==> e.Requested?)
      && (B.IsShared(w) <==> e.Present? && e.kind.Shared?)
      && (B.IsCow(w) <==> IsCow(e))
      && (B.IsSwapped(w) <==> e.Swapped?)
      && (w == 0 <==> e.Invalid?)
      && (B.IsPresent(w) <==> e.Present? || e.Kernel?)
      && (B.IsUser(w) <==> e.Present?)
      && (e.Present? ==> (B.IsWritable(w) <==> e.writable))
  {
    match e {
      case Present(f, k, wr) => PresentTests(v, e);
      case Swapped(id) => B.SwappedKinds(id as bv20);
      case Kernel => B.KernelKinds(v as bv20);
      case _ =>
    }
    B.KindsExclude(Encode(v, e));
  }

  lemma PresentTests(v: nat, e: Pte)
    requires Fits(v, e) && e.Present?
    ensures var w := Encode(v, e);
      && (B.IsAssigned(w) <==> e.kind.Assigned?) && !B.IsRequested(w) && (B.IsShared(w) <==> e.kind.Shared?)
      && (B.IsCow(w) <==> e.kind.Cow? && !e.writable) && !B.IsSwapped(w) && w != 0
    ensures var w := Encode(v, e); B.IsPresent(w) && B.IsUser(w) && (B.IsWritable(w) <==> e.writable)
  {
    PresentKindTests(v, e);
    PresentBitTests(v, e);
  }

  lemma PresentKindTests(v: nat, e: Pte)
    requires Fits(v, e) && e.Present?
    ensures var w := Encode(v, e);
      && (B.IsAssigned(w) <==> e.kind.Assigned?) && !B.IsRequested(w) && (B.IsShared(w) <==> e.kind.Shared?)
      && (B.IsCow(w) <==> e.kind.Cow? && !e.writable) && !B.IsSwapped(w) && w != 0
  {
    match e.kind {
      case Assigned => B.PresentKinds(e.frame as bv20, 0, e.writable);
      case Shared => B.PresentKinds(e.frame as bv20, 2, e.writable);
      case Cow => B.PresentKinds(e.frame as bv20, 3, e.writable);
    }
  }

  lemma PresentBitTests(v: nat, e: Pte)
    requires Fits(v, e) && e.Present?
    ensures var w := Encode(v, e); B.IsPresent(w) && B.IsUser(w) && (B.IsWritable(w) <==> e.writable)
  {
    B.PresentBits(e.frame as bv20, Avl(e.kind), e.writable);
  }

  /** The word of a present entry is made of a frame number and the bits of its kind. */
  lemma PresentEntry(v: nat, e: Pte) returns (f: bv20)
    requires Fits(v, e) && e.Present?
    ensures forall k: Kind, w: bool :: Encode(v, Present(e.frame, k, w)) == B.PresentWord(f, Avl(k), w)
  {
    f := e.frame as bv20;
  }

  /** What the memory manager writes into entries is what the macros make of the words. */
  lemma CowWord(v: nat, e: Pte)
    requires Fits(v, e) && e.Present?
    ensures Encode(v, Present(e.frame, Cow, false)) == B.MarkAsCow(Encode(v, e))
  {
    var f := PresentEntry(v, e);
    assert e == Present(e.frame, e.kind, e.writable);
    match e.kind {
      case Assigned => B.CowBits(f, 0, e.writable);
      case Shared => B.CowBits(f, 2, e.writable);
      case Cow => B.CowBits(f, 3, e.writable);
    }
  }

  /** Fork marks the entries of assigned pages in parent and child, and copies the others. */
  lemma ForkWord(v: nat, e: Pte)
    requires Fits(v, e)
    ensures Fits(v, CloneEntry(e))
    ensures e.Present? && e.kind.Assigned? ==> Encode(v, CloneEntry(e)) == B.MarkAsCow(Encode(v, e))
    ensures !(e.Present? && e.kind.Assigned?) ==> Encode(v, CloneEntry(e)) == Encode(v, e)
  {
    if e.Present? {
      CowWord(v, e);
    }
  }

  lemma ShareWord(v: nat, e: Pte)
    requires Fits(v, e) && e.Present?
    ensures Encode(v, e.(kind := Kind.Shared)) == B.MarkAsShared(Encode(v, e))
  {
    var f := PresentEntry(v, e);
    B.SharedBits(f, Avl(e.kind), e.writable);
    assert e == Present(e.frame, e.kind, e.writable);
  }

  lemma OwnWord(v: nat, e: Pte)
    requires Fits(v, e) && e.Present?
    ensures Encode(v, Present(e.frame, Assigned, true)) == B.MarkAsOwned(Encode(v, e))
  {
    var f := PresentEntry(v, e);
    assert e == Present(e.frame, e.kind, e.writable);
    match e.kind {
      case Assigned => B.OwnedBits(f, 0, e.writable);
      case Shared => B.OwnedBits(f, 2, e.writable);
      case Cow => B.OwnedBits(f, 3, e.writable);
    }
  }

  /** The words of a fresh page and of a page that is evicted; the swap id comes back out. */
  lemma FreshWord(v: nat, f: nat)
    requires v < 0x10_0000 && f < 0x10_0000
    ensures Encode(v, Present(f, Assigned, true)) == B.UserWord(f as bv20)
  {
    B.OtherPayloads(f as bv20);
  }

  lemma EvictWord(v: nat, id: nat)
    requires v < 0x10_0000 && id < 0x10_0000
    ensures Encode(v, Swapped(id)) == B.MarkAsSwapped(0) | ((id as bv20 as bv32) << 12)
    ensures B.Payload(Encode(v, Swapped(id))) == id as bv20
  {
    B.OtherPayloads(id as bv20);
  }
}
