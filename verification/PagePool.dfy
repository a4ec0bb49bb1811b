/** The pool of physical pages. */
module PagePools {
  import opened Words
  import opened Bitmap

  const PAGE_SIZE: nat := 4096

  lemma PageAddress(i: nat)
    ensures (i * PAGE_SIZE) / PAGE_SIZE == i && (i * PAGE_SIZE) % PAGE_SIZE == 0
    ensures i > 0 ==> i * PAGE_SIZE > 0
  {
  }

  class PagePool {
    const freePages: array<Byte>
    const numPages: nat
    const staticEnd: nat
    var numFreePages: int
    /** The pages handed out and not given back. */
    ghost var held: set<nat>

    ghost predicate Valid()
      reads this, freePages
    {
      && staticEnd <= numPages && Covers(freePages[..], numPages)
      && (forall k :: 0 <= k < numPages ==> (Bits(freePages[..])[k] <==> k < staticEnd || k in held))
      && (forall k :: k in held ==> staticEnd <= k < numPages)
      && numFreePages == FreeCount(Bits(freePages[..]), numPages) == numPages - staticEnd - |held|
    }

    /** pagepool_init, with the first pages reserved by the kernel. */
    constructor (bitmap: array<Byte>, pages: nat, reserved: nat)
      requires reserved <= pages && Covers(bitmap[..], pages)
      modifies bitmap
      ensures Valid() && held == {} && numPages == pages && staticEnd == reserved && freePages == bitmap
    {
      freePages, numPages, staticEnd, held := bitmap, pages, reserved, {};
      numFreePages := pages - reserved;
      Init(bitmap, pages);
      ghost var b0 := Bits(bitmap[..]);
      FreeCountAll(b0, pages);
      var i := 0;
      while i < reserved
        invariant 0 <= i <= reserved && Covers(bitmap[..], pages)
        invariant forall k :: 0 <= k < pages ==> (Bits(bitmap[..])[k] <==> k < i)
        invariant FreeCount(Bits(bitmap[..]), pages) == pages - i
      {
        FreeCountAfterSet(Bits(bitmap[..]), pages, i, true);
        Set(bitmap, i, 1);
        i := i + 1;
      }
    }

    /** pagepool_get_phys_page: the lowest free page, which nobody else holds and which is not
        reserved for the kernel. The address is 0 exactly when no page is free, provided that
        the kernel reserves page 0; else it is also the address of that page. */
    method GetPhysPage() returns (address: nat)
      requires Valid()
      modifies this`numFreePages, this`held, freePages
      ensures Valid()
      ensures |old(held)| <= numPages - staticEnd
      ensures |old(held)| == numPages - staticEnd ==> address == 0 && held == old(held)
      ensures |old(held)| < numPages - staticEnd ==>
                && address % PAGE_SIZE == 0
                && var page := address / PAGE_SIZE;
                   && staticEnd <= page < numPages && page !in old(held) && held == old(held) + {page}
                   && forall k :: staticEnd <= k < page ==> k in old(held)
      ensures staticEnd > 0 ==> (address == 0 <==> |old(held)| == numPages - staticEnd)
    {
      hide Bits, FreeCount, BitAt;
      if numFreePages > 0 {
        ghost var b := Bits(freePages[..]);
        FreeCountZero(b, numPages);
        var i := FindAndSet(freePages, numPages);
        numFreePages := numFreePages - 1;
        assert i >= 0 && numFreePages >= 0;
        FreeCountAfterSet(b, numPages, i, true);
        held := held + {i as nat};
        PageAddress(i);
        address := i * PAGE_SIZE;
      } else {
        address := 0;
      }
    }

    /** pagepool_free_phys_page; the requires is what its two assertions ask for. */
    method FreePhysPage(address: nat)
      requires Valid() && address / PAGE_SIZE in held
      modifies this`numFreePages, this`held, freePages
      ensures Valid() && held == old(held) - {address / PAGE_SIZE}
    {
      var i := address / PAGE_SIZE;
      assert i >= staticEnd;
      var bit := Get(freePages, i);
      assert bit == 1;
      FreeCountAfterSet(Bits(freePages[..]), numPages, i, false);
      Set(freePages, i, 0);
      numFreePages := numFreePages + 1;
      held := held - {i};
    }
  }
}
