/** Taking blocks one at a time from an allocation bitmap, and counting what is left. */
module Allocation {
  import opened Collections
  import opened Bitmap
  import opened DiskFormat
  import opened TfsImage
  import opened TfsEffects

  /** b1 is b0 with exactly the bits of taken set, all of which were zero and distinct. */
  ghost predicate Takes(b0: seq<bool>, b1: seq<bool>, total: nat, taken: seq<nat>)
    requires total <= |b0|
  {
    && NoDuplicates(taken)
    && (forall x :: x in taken ==> x < total && !b0[x])
    && |b1| == |b0|
    && (forall k :: 0 <= k < |b0| ==> (b1[k] <==> b0[k] || k in taken))
  }

  lemma TakesNothing(b0: seq<bool>, total: nat)
    requires total <= |b0|
    ensures Takes(b0, b0, total, [])
  {
  }

  lemma TakesOneMore(b0: seq<bool>, b1: seq<bool>, total: nat, taken: seq<nat>, x: nat)
    requires total <= |b0| && Takes(b0, b1, total, taken)
    requires x < total && !b1[x]
    ensures Takes(b0, b1[x := true], total, taken + [x])
  {
    var more := taken + [x];
    assert x !in taken;
    forall i, j | 0 <= i < j < |more| ensures more[i] != more[j] {
      if j == |taken| {
        assert more[i] in taken;
      }
    }
  }

  /** Taking blocks lowers the free count by exactly their number. */
  lemma {:induction false} TakesCount(b0: seq<bool>, b1: seq<bool>, total: nat, taken: seq<nat>)
    requires total <= |b0| && Takes(b0, b1, total, taken)
    ensures FreeCount(b1, total) + |taken| == FreeCount(b0, total)
    decreases |taken|
  {
    if taken == [] {
      assert b1 == b0;
    } else {
      var x := taken[|taken| - 1];
      var rest := taken[..|taken| - 1];
      assert x in taken && x !in rest;
      var b := b1[x := false];
      forall k | 0 <= k < |b0| ensures b[k] <==> b0[k] || k in rest {
        assert k in taken <==> k in rest || k == x;
      }
      assert forall y :: y in rest ==> y in taken;
      TakesCount(b0, b, total, rest);
      FreeCountAfterSet(b1, total, x, false);
    }
  }

  /** Bitmaps that agree below total have the same free count. */
  lemma {:induction false} SameFreeCount(b: seq<bool>, b': seq<bool>, total: nat)
    requires total <= |b| && total <= |b'|
    requires forall k :: 0 <= k < total ==> b[k] == b'[k]
    ensures FreeCount(b, total) == FreeCount(b', total)
  {
    if total > 0 {
      SameFreeCount(b, b', total - 1);
    }
  }

  /** Adding a file costs its inode block and its listed blocks, no more and no less. */
  lemma AddsCost(f: Fs, f': Fs, total: nat, slot: nat, e: DirEntry, n: Inode)
    requires Adds(f, f', total, slot, e, n)
    ensures FreeCount(f'.bits, total) + 1 + |n.blocks| == FreeCount(f.bits, total)
  {
    var taken := [e.inode] + n.blocks;
    var b := seq(|f.bits|, k requires 0 <= k < |f.bits| => f.bits[k] || k in taken);
    TakesCount(f.bits, b, total, taken);
    SameFreeCount(b, f'.bits, total);
  }

  lemma OwnedHasNoDuplicates(f: Fs, total: nat, i: nat)
    requires Valid(f, total) && i < |f.dir|
    ensures NoDuplicates(Owned(f, i))
  {
  }

  /** Removing a file gives back exactly the blocks it owned. */
  lemma RemovesGain(f: Fs, f': Fs, total: nat, slot: nat)
    requires Valid(f, total) && Removes(f, f', total, slot)
    ensures FreeCount(f'.bits, total) == FreeCount(f.bits, total) + |Owned(f, slot)|
  {
    var o := Owned(f, slot);
    OwnedHasNoDuplicates(f, total, slot);
    var b := seq(|f.bits|, k requires 0 <= k < |f.bits| => f.bits[k] && k !in o);
    forall x | x in o ensures x < total && f.bits[x] {
      OwnedIsAllocated(f, total, slot, x);
    }
    forall k | 0 <= k < |b| ensures f.bits[k] <==> b[k] || k in o {
    }
    TakesCount(b, f.bits, total, o);
    SameFreeCount(b, f'.bits, total);
  }

  /** The blocks of the files in the first n slots, one after the other. */
  function OwnedUpTo(f: Fs, n: nat): seq<nat>
    requires n <= |f.dir|
  {
    if n == 0 then [] else OwnedUpTo(f, n - 1) + Owned(f, n - 1)
  }

  lemma {:induction false} OwnedUpToIs(f: Fs, total: nat, n: nat)
    requires Valid(f, total) && n <= |f.dir|
    ensures NoDuplicates(OwnedUpTo(f, n))
    ensures forall b :: b in OwnedUpTo(f, n) <==> exists i :: 0 <= i < n && b in Owned(f, i)
  {
    if n > 0 {
      OwnedUpToIs(f, total, n - 1);
      OwnedHasNoDuplicates(f, total, n - 1);
      var before, last := OwnedUpTo(f, n - 1), Owned(f, n - 1);
      forall b | b in before ensures b !in last {
        var i :| 0 <= i < n - 1 && b in Owned(f, i);
        OwnersDiffer(f, total, i, n - 1, b);
      }
      JoinHasNoDuplicates(before, last);
      forall b ensures b in OwnedUpTo(f, n) <==> exists i :: 0 <= i < n && b in Owned(f, i) {
        assert b in OwnedUpTo(f, n) <==> b in before || b in last;
      }
    }
  }

  const SYSTEM_BLOCKS: seq<nat> := [0, 1, 2]

  /** The allocated blocks, as one sequence without duplicates. */
  lemma AllocatedAre(f: Fs, total: nat)
    requires Valid(f, total)
    ensures var taken: seq<nat> := SYSTEM_BLOCKS + OwnedUpTo(f, |f.dir|);
            && NoDuplicates(taken) && (forall x :: x in taken ==> x < total)
            && (forall k: nat :: k < total ==> (f.bits[k] <==> k in taken))
  {
    hide OwnedUpTo, NoDuplicates;
    var owned := OwnedUpTo(f, |f.dir|);
    OwnedUpToIs(f, total, |f.dir|);
    forall b | b in owned ensures 3 <= b < total {
      var i :| 0 <= i < |f.dir| && b in Owned(f, i);
      OwnedIsAllocated(f, total, i, b);
    }
    SystemBlocksDiffer();
    JoinHasNoDuplicates(SYSTEM_BLOCKS, owned);
    forall k: nat | k < total ensures f.bits[k] <==> k in SYSTEM_BLOCKS + owned {
      assert k in SYSTEM_BLOCKS + owned <==> k in SYSTEM_BLOCKS || k in owned;
      assert Claimed(f, k) <==> k in owned;
    }
  }

  lemma SystemBlocksDiffer()
    ensures NoDuplicates(SYSTEM_BLOCKS)
  {
  }

  /** Space accounting: free blocks, system blocks and owned blocks make up the disk. */
  lemma SpaceAccounting(f: Fs, total: nat)
    requires Valid(f, total)
    ensures FreeCount(f.bits, total) + 3 + |OwnedUpTo(f, |f.dir|)| == total
  {
    hide OwnedUpTo, NoDuplicates, FreeCount;
    AllocatedAre(f, total);
    var b := f.bits[..total];
    var taken: seq<nat> := SYSTEM_BLOCKS + OwnedUpTo(f, |f.dir|);
    TakenOfAll(b, total, taken);
    SameFreeCount(b, f.bits, total);
  }

  lemma TakenOfAll(b: seq<bool>, total: nat, taken: seq<nat>)
    requires |b| == total && NoDuplicates(taken)
    requires forall x :: x in taken ==> x < total
    requires forall k: nat :: k < total ==> (b[k] <==> k in taken)
    ensures FreeCount(b, total) + |taken| == total
  {
    var none := seq(total, _ => false);
    TakesCount(none, b, total, taken);
    FreeCountAll(none, total);
  }
}
