/** The three ways an operation may change a TFS image, and what each of them does to
    the files the image encodes. The kernel driver and the host tool both refine these. */
module TfsEffects {
  import opened Collections
  import opened DiskFormat
  import opened TfsImage

  /** The blocks of bs are distinct data blocks that the allocation bits have as free. */
  ghost predicate FreeBlocks(f: Fs, total: nat, bs: seq<nat>)
    requires WellFormed(f) && total <= TFS_MAX_BLOCKS
  {
    && NoDuplicates(bs)
    && forall b :: b in bs ==> 3 <= b < total && !f.bits[b]
  }

  /** f' holds one more file, in a slot that was unused, on blocks that were free. */
  ghost predicate Adds(f: Fs, f': Fs, total: nat, slot: nat, e: DirEntry, n: Inode) {
    && WellFormed(f) && WellFormed(f') && |f'.data| == |f.data|
    && 3 <= total <= TFS_MAX_BLOCKS && total <= |f.data|
    && slot < |f.dir| && !Used(f.dir[slot])
    && IsName(e.name) && SlotOf(f.dir, e.name) == -1
    && f'.dir == f.dir[slot := e]
    && FreeBlocks(f, total, [e.inode] + n.blocks)
    && NodeOf(f', e) == n && n.filesize <= TFS_BLOCK_SIZE * |n.blocks|
    && (forall k: nat :: k < total ==> (f'.bits[k] <==> f.bits[k] || k in [e.inode] + n.blocks))
    && (forall k: nat :: k >= 3 && k !in [e.inode] + n.blocks ==> SameBlock(f, f', k))
  }

  /** f' holds one file less. */
  ghost predicate Removes(f: Fs, f': Fs, total: nat, slot: nat) {
    && WellFormed(f) && WellFormed(f') && |f'.data| == |f.data|
    && total <= TFS_MAX_BLOCKS
    && slot < |f.dir| && Used(f.dir[slot])
    && f'.dir == f.dir[slot := DirEntry(0, [])]
    && (forall k: nat :: k < total ==> (f'.bits[k] <==> f.bits[k] && k !in Owned(f, slot)))
    && (forall k: nat :: k >= 3 ==> SameBlock(f, f', k))
  }

  /** f' differs from f at most in data blocks of the file in the slot. */
  ghost predicate Rewrites(f: Fs, f': Fs, slot: nat) {
    && WellFormed(f) && WellFormed(f') && |f'.data| == |f.data|
    && slot < |f.dir| && Used(f.dir[slot])
    && f'.dir == f.dir && f'.bits == f.bits
    && forall k: nat :: k >= 3 && k !in NodeOf(f, f.dir[slot]).blocks ==> SameBlock(f, f', k)
  }

  /** The file of slot i is the same in both images, on the same blocks. */
  ghost predicate KeepsFile(f: Fs, f': Fs, i: nat) {
    && i < |f.dir| == |f'.dir|
    && f'.dir[i] == f.dir[i] && Owned(f', i) == Owned(f, i)
    && (Used(f.dir[i]) ==>
          && NodeOf(f', f.dir[i]) == NodeOf(f, f.dir[i])
          && FileBytes(f'.data, NodeOf(f', f.dir[i])) == FileBytes(f.data, NodeOf(f, f.dir[i])))
  }

  lemma OwnedIsAllocated(f: Fs, total: nat, i: nat, b: nat)
    requires Valid(f, total) && i < |f.dir| && b in Owned(f, i)
    ensures 3 <= b < total && f.bits[b]
  {
    var k :| 0 <= k < |Owned(f, i)| && Owned(f, i)[k] == b;
    if k > 0 {
      assert b == NodeOf(f, f.dir[i]).blocks[k - 1];
    }
    assert Claimed(f, b);
  }

  /** Two different files have no block in common. */
  lemma OwnersDiffer(f: Fs, total: nat, i: nat, j: nat, b: nat)
    requires Valid(f, total) && i < |f.dir| && j < |f.dir| && i != j && b in Owned(f, i)
    ensures b !in Owned(f, j)
  {
    var k :| 0 <= k < |Owned(f, i)| && Owned(f, i)[k] == b;
  }

  lemma AddsKeepsOthers(f: Fs, f': Fs, total: nat, slot: nat, e: DirEntry, n: Inode, i: nat)
    requires Valid(f, total) && Adds(f, f', total, slot, e, n)
    requires i < |f.dir| && i != slot
    ensures KeepsFile(f, f', i)
  {
    forall b | b in Owned(f, i) ensures SameBlock(f, f', b) {
      OwnedIsAllocated(f, total, i, b);
    }
    SameFile(f, f', i);
  }

  lemma AddsOwned(f: Fs, f': Fs, total: nat, slot: nat, e: DirEntry, n: Inode)
    requires Adds(f, f', total, slot, e, n)
    ensures Owned(f', slot) == [e.inode] + n.blocks
    ensures 3 <= e.inode < total && InodeOk(n, total)
  {
    assert e.inode in [e.inode] + n.blocks;
    forall k | 0 <= k < |n.blocks| ensures 3 <= n.blocks[k] < total {
      assert n.blocks[k] in [e.inode] + n.blocks;
    }
  }

  lemma AddsNoSharing(f: Fs, f': Fs, total: nat, slot: nat, e: DirEntry, n: Inode)
    requires Valid(f, total) && Adds(f, f', total, slot, e, n)
    ensures NoSharing(f')
  {
    AddsOwned(f, f', total, slot, e, n);
    forall i, j, a, b | 0 <= i < |f'.dir| && 0 <= j < |f'.dir|
                        && 0 <= a < |Owned(f', i)| && 0 <= b < |Owned(f', j)|
                        && Owned(f', i)[a] == Owned(f', j)[b]
      ensures i == j && a == b
    {
      if i != slot {
        AddsKeepsOthers(f, f', total, slot, e, n, i);
        OwnedIsAllocated(f, total, i, Owned(f', i)[a]);
      }
      if j != slot {
        AddsKeepsOthers(f, f', total, slot, e, n, j);
        OwnedIsAllocated(f, total, j, Owned(f', j)[b]);
      }
    }
  }

  lemma AddsBitmapExact(f: Fs, f': Fs, total: nat, slot: nat, e: DirEntry, n: Inode)
    requires Valid(f, total) && Adds(f, f', total, slot, e, n)
    ensures BitmapExact(f', total)
  {
    AddsOwned(f, f', total, slot, e, n);
    forall i | 0 <= i < |f.dir| && i != slot ensures Owned(f', i) == Owned(f, i) {
      AddsKeepsOthers(f, f', total, slot, e, n, i);
    }
    forall k: nat | k < total ensures f'.bits[k] <==> k < 3 || Claimed(f', k) {
      if k in [e.inode] + n.blocks {
        assert k in Owned(f', slot);
      } else {
        ClaimedSame(f, f', slot, k);
      }
    }
  }

  /** A block that slot s owns in neither image is claimed in both or in none, when the
      other slots own the same blocks. */
  lemma ClaimedSame(f: Fs, f': Fs, s: nat, k: nat)
    requires s < |f.dir| == |f'.dir|
    requires forall i :: 0 <= i < |f.dir| && i != s ==> Owned(f', i) == Owned(f, i)
    requires k !in Owned(f, s) && k !in Owned(f', s)
    ensures Claimed(f', k) <==> Claimed(f, k)
  {
    if Claimed(f, k) {
      var i :| 0 <= i < |f.dir| && k in Owned(f, i);
      assert k in Owned(f', i);
    }
    if Claimed(f', k) {
      var i :| 0 <= i < |f'.dir| && k in Owned(f', i);
      assert k in Owned(f, i);
    }
  }

  lemma AddsKeepsValid(f: Fs, f': Fs, total: nat, slot: nat, e: DirEntry, n: Inode)
    requires Valid(f, total) && Adds(f, f', total, slot, e, n)
    ensures Valid(f', total)
  {
    AddsOwned(f, f', total, slot, e, n);
    AddsNoSharing(f, f', total, slot, e, n);
    AddsBitmapExact(f, f', total, slot, e, n);
    forall i | 0 <= i < |f'.dir| && Used(f'.dir[i]) ensures InodeOk(NodeOf(f', f'.dir[i]), total) {
      if i != slot {
        AddsKeepsOthers(f, f', total, slot, e, n, i);
      }
    }
  }

  /** Every name of f except one is found in f' too, with the same entry and contents. */
  ghost predicate KeepsNames(f: Fs, f': Fs, except: Name) {
    forall name :: name in Names(f) && name != except ==>
      && name in Names(f')
      && Lookup(f', name) == Lookup(f, name)
      && NodeOf(f', Lookup(f', name)) == NodeOf(f, Lookup(f, name))
      && Contents(f', name) == Contents(f, name)
  }

  lemma NamesKept(f: Fs, f': Fs, total: nat, slot: nat)
    requires Valid(f, total) && Valid(f', total) && slot < |f.dir|
    requires forall i :: 0 <= i < |f.dir| && i != slot ==> KeepsFile(f, f', i)
    ensures KeepsNames(f, f', f.dir[slot].name)
  {
    forall name | name in Names(f) && name != f.dir[slot].name
      ensures name in Names(f') && Lookup(f', name) == Lookup(f, name)
      ensures NodeOf(f', Lookup(f', name)) == NodeOf(f, Lookup(f, name)) && Contents(f', name) == Contents(f, name)
    {
      var i :| 0 <= i < |f.dir| && Used(f.dir[i]) && f.dir[i].name == name;
      assert KeepsFile(f, f', i);
      FoundAt(f, total, i);
      FoundAt(f', total, i);
    }
  }

  lemma KeepsIsSymmetric(f: Fs, f': Fs, i: nat)
    requires KeepsFile(f, f', i)
    ensures KeepsFile(f', f, i)
  {
  }

  /** Images whose files agree outside one slot have the same other names. */
  lemma OtherNames(f: Fs, f': Fs, total: nat, slot: nat)
    requires Valid(f, total) && Valid(f', total) && slot < |f.dir|
    requires forall i :: 0 <= i < |f.dir| && i != slot ==> KeepsFile(f, f', i)
    ensures KeepsNames(f, f', f.dir[slot].name)
    ensures KeepsNames(f', f, f'.dir[slot].name)
  {
    NamesKept(f, f', total, slot);
    forall i | 0 <= i < |f'.dir| && i != slot ensures KeepsFile(f', f, i) {
      KeepsIsSymmetric(f, f', i);
    }
    NamesKept(f', f, total, slot);
  }

  lemma ViewWith(f: Fs, f': Fs, name: Name)
    requires KeepsNames(f, f', name) && KeepsNames(f', f, name)
    requires name in Names(f')
    ensures View(f') == View(f)[name := Contents(f', name)]
  {
    assert Names(f') == Names(f) + {name};
  }

  lemma ViewWithout(f: Fs, f': Fs, name: Name)
    requires KeepsNames(f, f', name) && KeepsNames(f', f, name)
    requires name in Names(f) && name !in Names(f')
    ensures View(f') == View(f) - {name}
  {
    assert Names(f') == Names(f) - {name};
  }

  lemma NamesAreNotEmpty(f: Fs, total: nat)
    requires Valid(f, total)
    ensures [] !in Names(f)
  {
  }

  /** Adding a file keeps the invariant and adds exactly one name to the view. */
  lemma AddsOneFile(f: Fs, f': Fs, total: nat, slot: nat, e: DirEntry, n: Inode)
    requires Valid(f, total) && Adds(f, f', total, slot, e, n)
    ensures Valid(f', total)
    ensures e.name !in Names(f) && e.name in Names(f')
    ensures View(f') == View(f)[e.name := FileBytes(f'.data, n)]
    ensures Lookup(f', e.name) == e
    ensures KeepsNames(f, f', e.name)
  {
    AddsKeepsValid(f, f', total, slot, e, n);
    AddsOwned(f, f', total, slot, e, n);
    NameFound(f, total, e.name);
    FoundAt(f', total, slot);
    forall i | 0 <= i < |f.dir| && i != slot ensures KeepsFile(f, f', i) {
      AddsKeepsOthers(f, f', total, slot, e, n, i);
    }
    OtherNames(f, f', total, slot);
    NamesAreNotEmpty(f, total);
    assert KeepsNames(f, f', e.name);
    ViewWith(f, f', e.name);
  }

  lemma RemovesKeepsOthers(f: Fs, f': Fs, total: nat, slot: nat, i: nat)
    requires Valid(f, total) && Removes(f, f', total, slot)
    requires i < |f.dir| && i != slot
    ensures KeepsFile(f, f', i)
  {
    forall b | b in Owned(f, i) ensures SameBlock(f, f', b) {
      OwnedIsAllocated(f, total, i, b);
    }
    SameFile(f, f', i);
  }

  lemma RemovesNoSharing(f: Fs, f': Fs, total: nat, slot: nat)
    requires Valid(f, total) && Removes(f, f', total, slot)
    requires forall i :: 0 <= i < |f.dir| && i != slot ==> KeepsFile(f, f', i)
    ensures NoSharing(f')
  {
    forall i, j, a, b | 0 <= i < |f'.dir| && 0 <= j < |f'.dir|
                        && 0 <= a < |Owned(f', i)| && 0 <= b < |Owned(f', j)|
                        && Owned(f', i)[a] == Owned(f', j)[b]
      ensures i == j && a == b
    {
      assert i != slot && j != slot;
      assert KeepsFile(f, f', i) && KeepsFile(f, f', j);
      assert Owned(f, i)[a] == Owned(f, j)[b];
    }
  }

  lemma RemovesBitmapExact(f: Fs, f': Fs, total: nat, slot: nat)
    requires Valid(f, total) && Removes(f, f', total, slot)
    requires forall i :: 0 <= i < |f.dir| && i != slot ==> KeepsFile(f, f', i)
    ensures BitmapExact(f', total)
  {
    assert Owned(f', slot) == [];
    forall i | 0 <= i < |f.dir| && i != slot ensures Owned(f', i) == Owned(f, i) {
      assert KeepsFile(f, f', i);
    }
    forall k: nat | k < total ensures f'.bits[k] <==> k < 3 || Claimed(f', k) {
      if k in Owned(f, slot) {
        OwnedIsAllocated(f, total, slot, k);
        forall i | 0 <= i < |f'.dir| ensures k !in Owned(f', i) {
          if i != slot {
            OwnersDiffer(f, total, slot, i, k);
          }
        }
      } else {
        ClaimedSame(f, f', slot, k);
      }
    }
  }

  lemma RemovesKeepsValid(f: Fs, f': Fs, total: nat, slot: nat)
    requires Valid(f, total) && Removes(f, f', total, slot)
    ensures Valid(f', total)
  {
    forall i | 0 <= i < |f.dir| && i != slot ensures KeepsFile(f, f', i) {
      RemovesKeepsOthers(f, f', total, slot, i);
    }
    RemovesNoSharing(f, f', total, slot);
    RemovesBitmapExact(f, f', total, slot);
    forall i | 0 <= i < |f'.dir| && Used(f'.dir[i]) ensures InodeOk(NodeOf(f', f'.dir[i]), total) {
      assert KeepsFile(f, f', i);
    }
  }

  /** Removing a file keeps the invariant and takes exactly its name out of the view. */
  lemma RemovesOneFile(f: Fs, f': Fs, total: nat, slot: nat)
    requires Valid(f, total) && Removes(f, f', total, slot)
    ensures Valid(f', total)
    ensures f.dir[slot].name in Names(f)
    ensures View(f') == View(f) - {f.dir[slot].name}
    ensures KeepsNames(f, f', f.dir[slot].name)
  {
    var gone := f.dir[slot].name;
    RemovesKeepsValid(f, f', total, slot);
    FoundAt(f, total, slot);
    forall i | 0 <= i < |f.dir| && i != slot ensures KeepsFile(f, f', i) {
      RemovesKeepsOthers(f, f', total, slot, i);
    }
    OtherNames(f, f', total, slot);
    NamesAreNotEmpty(f', total);
    forall i | 0 <= i < |f'.dir| && Used(f'.dir[i]) ensures f'.dir[i].name != gone {
      assert f'.dir[i] == f.dir[i];
    }
    assert KeepsNames(f', f, gone);
    ViewWithout(f, f', gone);
  }

  lemma RewritesKeepsFiles(f: Fs, f': Fs, total: nat, slot: nat, i: nat)
    requires Valid(f, total) && Rewrites(f, f', slot) && i < |f.dir|
    ensures Owned(f', i) == Owned(f, i)
    ensures Used(f.dir[i]) ==> NodeOf(f', f.dir[i]) == NodeOf(f, f.dir[i])
    ensures i != slot ==> KeepsFile(f, f', i)
  {
    var n := NodeOf(f, f.dir[slot]);
    forall b | b in n.blocks ensures b in Owned(f, slot) && b != f.dir[slot].inode {
      var j :| 0 <= j < |n.blocks| && n.blocks[j] == b;
      assert Owned(f, slot)[j + 1] == b;
      assert Owned(f, slot)[0] == f.dir[slot].inode;
    }
    if i != slot {
      forall b | b in Owned(f, i) ensures SameBlock(f, f', b) {
        OwnedIsAllocated(f, total, i, b);
        OwnersDiffer(f, total, i, slot, b);
      }
      SameFile(f, f', i);
    } else {
      assert SameBlock(f, f', f.dir[slot].inode);
    }
  }

  /** Rewriting data blocks of one file keeps the invariant and every other file. */
  lemma RewritesOneFile(f: Fs, f': Fs, total: nat, slot: nat)
    requires Valid(f, total) && Rewrites(f, f', slot)
    ensures Valid(f', total)
    ensures NodeOf(f', f.dir[slot]) == NodeOf(f, f.dir[slot])
    ensures View(f') == View(f)[f.dir[slot].name := FileBytes(f'.data, NodeOf(f, f.dir[slot]))]
    ensures KeepsNames(f, f', f.dir[slot].name)
  {
    forall i | 0 <= i < |f.dir|
      ensures Owned(f', i) == Owned(f, i)
      ensures Used(f.dir[i]) ==> NodeOf(f', f.dir[i]) == NodeOf(f, f.dir[i])
      ensures i != slot ==> KeepsFile(f, f', i)
    {
      RewritesKeepsFiles(f, f', total, slot, i);
    }
    SameOwnersValid(f, f', total);
    FoundAt(f', total, slot);
    OtherNames(f, f', total, slot);
    ViewWith(f, f', f.dir[slot].name);
  }

  lemma SameOwnersValid(f: Fs, f': Fs, total: nat)
    requires Valid(f, total) && WellFormed(f') && |f'.data| == |f.data|
    requires f'.dir == f.dir && f'.bits == f.bits
    requires forall i :: 0 <= i < |f.dir| ==> Owned(f', i) == Owned(f, i)
    requires forall i :: 0 <= i < |f.dir| && Used(f.dir[i]) ==> NodeOf(f', f.dir[i]) == NodeOf(f, f.dir[i])
    ensures Valid(f', total)
  {
    assert NoSharing(f');
    forall k: nat | k < total ensures f'.bits[k] <==> k < 3 || Claimed(f', k) {
      if Claimed(f, k) {
        var i :| 0 <= i < |f.dir| && k in Owned(f, i);
        assert k in Owned(f', i);
      }
      if Claimed(f', k) {
        var i :| 0 <= i < |f'.dir| && k in Owned(f', i);
        assert k in Owned(f, i);
      }
    }
  }

  lemma SameContents(f: Fs, f': Fs, total: nat, name: Name)
    requires Valid(f, total) && Valid(f', total) && f'.dir == f.dir
    requires forall i :: 0 <= i < |f.dir| ==> KeepsFile(f, f', i)
    requires name in Names(f) && name in Names(f')
    ensures Contents(f', name) == Contents(f, name)
  {
    var i :| 0 <= i < |f.dir| && Used(f.dir[i]) && f.dir[i].name == name;
    assert KeepsFile(f, f', i);
    FoundAt(f, total, i);
    FoundAt(f', total, i);
  }

  /** Writing to blocks that are not allocated changes no file. */
  lemma FreeBlocksDoNotMatter(f: Fs, f': Fs, total: nat)
    requires Valid(f, total) && WellFormed(f') && |f'.data| == |f.data|
    requires f'.dir == f.dir && f'.bits == f.bits
    requires forall k: nat :: 3 <= k < total && f.bits[k] ==> SameBlock(f, f', k)
    ensures Valid(f', total) && View(f') == View(f)
  {
    forall i | 0 <= i < |f.dir|
      ensures KeepsFile(f, f', i) && Owned(f', i) == Owned(f, i)
      ensures Used(f.dir[i]) ==> NodeOf(f', f.dir[i]) == NodeOf(f, f.dir[i])
    {
      forall b | b in Owned(f, i) ensures SameBlock(f, f', b) {
        OwnedIsAllocated(f, total, i, b);
      }
      SameFile(f, f', i);
    }
    SameOwnersValid(f, f', total);
    assert Names(f') == Names(f);
    forall name | name in Names(f) ensures Contents(f', name) == Contents(f, name) {
      SameContents(f, f', total, name);
    }
  }

  /** Every name of f is found in f' too, with the same entry, blocks and contents. */
  ghost predicate KeepsAllNames(f: Fs, f': Fs) {
    forall name :: name in Names(f) ==>
      && name in Names(f')
      && Lookup(f', name) == Lookup(f, name)
      && NodeOf(f', Lookup(f', name)) == NodeOf(f, Lookup(f, name))
  }

  lemma ClaimedByName(f: Fs, f': Fs, total: nat, b: nat)
    requires Valid(f, total) && Valid(f', total) && KeepsAllNames(f, f') && Claimed(f, b)
    ensures Claimed(f', b)
  {
    var i :| 0 <= i < |f.dir| && b in Owned(f, i);
    var name := f.dir[i].name;
    FoundAt(f, total, i);
    var j := SlotOf(f'.dir, name);
    assert f'.dir[j] == f.dir[i] && Owned(f', j) == Owned(f, i);
  }

  /** The files of an image determine its allocation bits. */
  lemma SameFilesSameBits(f: Fs, f': Fs, total: nat)
    requires Valid(f, total) && Valid(f', total) && KeepsAllNames(f, f') && KeepsAllNames(f', f)
    ensures forall b: nat :: b < total ==> f'.bits[b] == f.bits[b]
  {
    forall b: nat | b < total ensures f'.bits[b] == f.bits[b] {
      if Claimed(f, b) {
        ClaimedByName(f, f', total, b);
      }
      if Claimed(f', b) {
        ClaimedByName(f', f, total, b);
      }
    }
  }

  /** Adding a name and taking it away again leaves the names as they were. */
  lemma AddedAndRemoved(f: Fs, g: Fs, h: Fs, name: Name)
    requires name !in Names(f) && Names(g) == Names(f) + {name} && Names(h) == Names(f)
    requires KeepsNames(f, g, name) && KeepsNames(g, h, name)
    ensures KeepsAllNames(f, h) && KeepsAllNames(h, f)
  {
  }
}
