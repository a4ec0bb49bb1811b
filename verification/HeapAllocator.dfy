/** malloc and free of the user library, on the heap's words in place. Pointers are byte
    offsets into the heap; all accesses are to whole words at multiples of four. */
module HeapAllocator {
  import opened HeapTiles
  import opened HeapLinks
  import opened HeapRequests

  /** The words of the allocated tiles, apart from tile i, are the same in both memories. */
  ghost predicate UsedSame(m0: seq<int>, m1: seq<int>, tiles: seq<Tile>, i: int) {
    && |m0| == |m1|
    && forall k :: 0 <= k < |tiles| && k != i && !tiles[k].free && tiles[k].at + tiles[k].size <= |m0| ==>
         m0[tiles[k].at..tiles[k].at + tiles[k].size] == m1[tiles[k].at..tiles[k].at + tiles[k].size]
  }

  lemma WriteInside(m0: seq<int>, m1: seq<int>, tiles: seq<Tile>, total: nat, i: int, j: nat, x: nat, v: int)
    requires UsedSame(m0, m1, tiles, i) && Row(tiles, 0, total) && x < |m1|
    requires j < |tiles| && tiles[j].at <= x < tiles[j].at + tiles[j].size && (tiles[j].free || j == i)
    ensures UsedSame(m0, m1[x := v], tiles, i)
  {
    var m2 := m1[x := v];
    forall k | 0 <= k < |tiles| && k != i && !tiles[k].free && tiles[k].at + tiles[k].size <= |m0|
      ensures m0[tiles[k].at..tiles[k].at + tiles[k].size] == m2[tiles[k].at..tiles[k].at + tiles[k].size]
    {
      if k < j {
        InOrder(tiles, 0, total, k, j);
      } else {
        InOrder(tiles, 0, total, j, k);
      }
      assert m1[tiles[k].at..tiles[k].at + tiles[k].size] == m2[tiles[k].at..tiles[k].at + tiles[k].size];
    }
  }

  lemma Untouched(m: seq<int>, tiles: seq<Tile>, i: int)
    ensures UsedSame(m, m, tiles, i)
  {
  }

  lemma SplitAll(m0: seq<int>, tiles: seq<Tile>, total: nat, n: nat)
    requires WellTiled(tiles, total) && Linked(m0, tiles, NULL) && total <= |m0|
    requires FirstFit(tiles, n) < |tiles| && tiles[FirstFit(tiles, n)].size - n >= SMALLEST
    requires n >= SMALLEST && n % 4 == 0
    ensures var t := tiles[FirstFit(tiles, n)];
            && t.at + t.size <= |m0|
            && var m1 := m0[t.at := t.size - n][t.at + t.size - n := n];
               && WellTiled(Allocate(tiles, n), total) && Linked(m1, Allocate(tiles, n), NULL)
               && FirstFree(Allocate(tiles, n), NULL) == FirstFree(tiles, NULL)
               && UsedSame(m0, m1, tiles, -1)
  {
    hide Linked, FirstFree, UsedSame, FirstFit, Row, Coalesced, Carve;
    var i := FirstFit(tiles, n);
    var t := tiles[i];
    Placed(tiles, 0, total, i);
    SplitLinked(m0, tiles, total, i, n);
    AllocateKeeps(tiles, total, n);
    Untouched(m0, tiles, -1);
    WriteInside(m0, m0, tiles, total, -1, i, t.at, t.size - n);
    WriteInside(m0, m0[t.at := t.size - n], tiles, total, -1, i, t.at + t.size - n, n);
  }

  lemma Tiled(tiles: seq<Tile>, total: nat)
    requires WellTiled(tiles, total)
    ensures Row(tiles, 0, total)
  {
  }

  /** The tiles between p and i are allocated. */
  ghost predicate UsedBetween(tiles: seq<Tile>, p: int, i: nat) {
    forall k :: p < k < i && 0 <= k < |tiles| ==> !tiles[k].free
  }

  /** A walk along the free list has come to tile i, or to the list's end; cur is its address
      and prev that of the free tile p before it, if any. */
  ghost predicate Walked(tiles: seq<Tile>, p: int, i: nat, prev: int, cur: int) {
    && -1 <= p < i + 1 <= |tiles| + 1 && p < |tiles|
    && (p >= 0 ==> p < i && tiles[p].free) && UsedBetween(tiles, p, i)
    && prev == (if p < 0 then NULL else tiles[p].at)
    && cur == AddressOf(tiles, i) && (i < |tiles| ==> tiles[i].free)
  }

  lemma WalkStarts(tiles: seq<Tile>)
    ensures Walked(tiles, -1, NextFree(tiles, 0), NULL, AddressOf(tiles, NextFree(tiles, 0)))
  {
  }

  lemma WalkGoesOn(tiles: seq<Tile>, p: int, i: nat, prev: int, cur: int)
    requires Walked(tiles, p, i, prev, cur) && i < |tiles|
    ensures Walked(tiles, i, NextFree(tiles, i + 1), cur, AddressOf(tiles, NextFree(tiles, i + 1)))
  {
  }

  lemma WalkedUsed(tiles: seq<Tile>, p: int, i: nat, prev: int, cur: int)
    requires Walked(tiles, p, i, prev, cur)
    ensures p + 1 <= i <= |tiles| && AllUsed(tiles[p + 1..i])
  {
  }

  /** No free tile before tile i passes a test of malloc for n bytes. */
  ghost predicate NonePassed(tiles: seq<Tile>, n: nat, i: nat)
    requires n < WORD
  {
    forall k :: 0 <= k < i && k < |tiles| ==> !(tiles[k].free && Passes(tiles[k].size, n))
  }

  lemma NonePassesOn(tiles: seq<Tile>, n: nat, i: nat)
    requires n < WORD && i < |tiles| && NonePassed(tiles, n, i) && !Passes(tiles[i].size, n)
    ensures NonePassed(tiles, n, NextFree(tiles, i + 1))
  {
    hide Passes;
  }

  lemma NonePassesFirst(tiles: seq<Tile>, n: nat)
    requires n < WORD
    ensures NonePassed(tiles, n, NextFree(tiles, 0))
  {
    hide Passes;
  }

  lemma TakenAt(tiles: seq<Tile>, n: nat, i: nat)
    requires n < WORD && i <= |tiles| && NonePassed(tiles, n, i)
    requires i < |tiles| ==> tiles[i].free && Passes(tiles[i].size, n)
    ensures FirstTaken(tiles, n) == i
  {
    hide Passes;
    var j := FirstTaken(tiles, n);
    assert j < |tiles| ==> tiles[j].free;
  }

  /** A write at a place outside of the heap is not seen in the heap. */
  function Put(mem: seq<int>, x: nat, v: int): seq<int> {
    if x < |mem| then mem[x := v] else mem
  }

  /** The heap's words after a split of tile t, with unsigned arithmetic. */
  function SplitWords(mem: seq<int>, t: Tile, n: nat): seq<int>
    requires t.size < WORD && n < WORD
  {
    Put(Put(mem, t.at, Difference(t.size, n)), t.at + Difference(t.size, n), n)
  }

  /** These words are no heap: a block of 252 bytes would be followed by one of 4. */
  lemma TornHeap(mem: seq<int>, tiles: seq<Tile>)
    requires |mem| == 256 && mem[0] == 252 && mem[252] == 4
    ensures !(WellTiled(tiles, 256) && Linked(mem, tiles, NULL))
  {
    hide Row, Linked;
    if WellTiled(tiles, 256) && Linked(mem, tiles, NULL) {
      RowEnds(tiles, 0, 256);
      LinkAt(mem, tiles, 0);
      Placed(tiles, 0, 256, 0);
      if |tiles| > 1 {
        LinkAt(mem, tiles, 1);
      }
    }
  }

  class Heap {
    const mem: array<int>
    var freeList: int
    ghost var tiles: seq<Tile>

    ghost predicate Valid()
      reads this, mem
    {
      && WellTiled(tiles, mem.Length) && mem.Length < HALF
      && Linked(mem[..], tiles, NULL) && freeList == FirstFree(tiles, NULL)
    }

    /** heap_init. */
    constructor (size: nat)
      requires SMALLEST <= size < HALF && size % 4 == 0
      ensures Valid() && fresh(mem) && mem.Length == size && tiles == [Tile(0, size, true)]
    {
      mem := new int[size](x => 0);
      freeList := 0;
      tiles := [Tile(0, size, true)];
      new;
      mem[0] := size;
      mem[HEADER] := NULL;
      assert tiles[1..] == [];
      assert Row(tiles, 0, size) && Coalesced(tiles);
    }

    lemma AtTile(i: nat)
      requires Valid() && i < |tiles|
      ensures tiles[i].at + tiles[i].size <= mem.Length && SMALLEST <= tiles[i].size < HALF
      ensures mem[tiles[i].at] == tiles[i].size
      ensures tiles[i].free ==> mem[tiles[i].at + HEADER] == AddressOf(tiles, NextFree(tiles, i + 1))
    {
      Placed(tiles, 0, mem.Length, i);
      LinkAt(mem[..], tiles, i);
    }

    /** The walk's tile in memory. */
    lemma AtWalk(p: int, i: nat, prev: int, cur: int)
      requires Valid() && Walked(tiles, p, i, prev, cur)
      ensures cur != NULL <==> i < |tiles|
      ensures i < |tiles| ==>
                && 0 <= cur && cur + HEADER < mem.Length && mem[cur] == tiles[i].size < HALF
                && mem[cur + HEADER] == AddressOf(tiles, NextFree(tiles, i + 1))
    {
      hide Valid, Walked, NextFree;
      WalkedTo(tiles, p, i, prev, cur);
      if i < |tiles| {
        AtTile(i);
      }
    }

    lemma FreeListStarts()
      requires Valid()
      ensures freeList == AddressOf(tiles, NextFree(tiles, 0))
    {
      assert tiles[0..] == tiles;
      FirstFreeIs(tiles, 0);
    }

    /** The block is shortened and its tail handed out, wherever the arithmetic puts it. */
    method Split(ghost i: nat, block: nat, n: nat) returns (ptr: int)
      requires Valid() && i < |tiles| && block == tiles[i].at && tiles[i].size < WORD && n < WORD
      modifies this`tiles, mem
      ensures mem[..] == SplitWords(old(mem[..]), old(tiles)[i], n)
      ensures ptr == block + Difference(old(tiles)[i].size, n) + HEADER
      ensures FirstFit(old(tiles), n) == i && old(tiles)[i].size - n >= SMALLEST && n >= SMALLEST && n % 4 == 0 ==>
                && Valid() && tiles == Allocate(old(tiles), n) && ptr == Carved(old(tiles)[i], n) + HEADER
                && UsedSame(old(mem[..]), mem[..], old(tiles), -1)
    {
      hide Linked, FirstFree, UsedSame, FirstFit, Allocate, WellTiled;
      ghost var m0, t := mem[..], tiles[i];
      AtTile(i);
      var left := Difference(mem[block], n);
      mem[block] := left;
      var newBlock := block + left;
      if newBlock < mem.Length {
        mem[newBlock] := n;
      }
      assert mem[..] == SplitWords(m0, t, n);
      if FirstFit(tiles, n) == i && t.size - n >= SMALLEST && n >= SMALLEST && n % 4 == 0 {
        SplitAll(m0, tiles, mem.Length, n);
        assert mem[..] == m0[t.at := t.size - n][t.at + t.size - n := n];
        tiles := Allocate(tiles, n);
      }
      return newBlock + HEADER;
    }

    /** The first free block that is just big enough is unlinked. */
    method Take(ghost i: nat, ghost p: int, block: nat, prev: int, ghost n: nat) returns (ptr: int)
      requires Valid() && FirstFit(tiles, n) == i < |tiles| && block == tiles[i].at
      requires tiles[i].size - n < SMALLEST && n >= SMALLEST && n % 4 == 0
      requires -1 <= p < i && prev == (if p < 0 then NULL else tiles[p].at)
      requires (p >= 0 ==> tiles[p].free) && AllUsed(tiles[p + 1..i])
      modifies this`tiles, this`freeList, mem
      ensures Valid() && tiles == Allocate(old(tiles), n) && ptr == Carved(old(tiles)[i], n) + HEADER
      ensures UsedSame(old(mem[..]), mem[..], old(tiles), -1)
    {
      hide WellTiled, Row, Linked, FirstFree, Coalesced, UsedSame, NextFree, AllUsed;
      ghost var m0, next := mem[..], AddressOf(tiles, NextFree(tiles, i + 1));
      AtTile(i);
      Tiled(tiles, mem.Length);
      AllocateKeeps(tiles, mem.Length, n);
      assert Allocate(tiles, n) == tiles[i := tiles[i].(free := false)];
      Untouched(m0, tiles, -1);
      if prev == NULL {
        freeList := mem[block + HEADER];
        ToggleFirst(m0, m0, tiles, mem.Length, i, false);
      } else {
        AtTile(p);
        WriteInside(m0, m0, tiles, mem.Length, -1, p, prev + HEADER, next);
        mem[prev + HEADER] := mem[block + HEADER];
        assert mem[..] == m0[prev + HEADER := next];
        ToggleAfter(m0, mem[..], tiles, mem.Length, i, p, false);
      }
      tiles := Allocate(tiles, n);
      return block + HEADER;
    }

    /** malloc. A sound request gets first fit. An unsound one is granted although nothing fits:
        a block is torn apart by wrapped arithmetic, or the smallest block there is handed out. */
    method Malloc(size: nat) returns (ptr: int)
      requires Valid() && size < WORD
      modifies this, mem
      ensures size == 0 ==> ptr == NULL && Valid() && tiles == old(tiles) && mem[..] == old(mem[..]) && freeList == old(freeList)
      ensures size > 0 && Sound(old(tiles), size) ==>
                && Valid() && tiles == Allocate(old(tiles), Needed(size))
                && (var i := FirstFit(old(tiles), Needed(size));
                    ptr == if i < |old(tiles)| then Carved(old(tiles)[i], Needed(size)) + HEADER else NULL)
                && UsedSame(old(mem[..]), mem[..], old(tiles), -1)
                && (ptr == NULL ==> mem[..] == old(mem[..]) && freeList == old(freeList))
      ensures size > 0 && !Sound(old(tiles), size) ==>
                && ptr != NULL && FirstFit(old(tiles), Needed(size)) == |old(tiles)|
                && var i := FirstTaken(old(tiles), Needed32(size));
                   && i < |old(tiles)| && old(tiles)[i].size < WORD
                   && if SplitTest(old(tiles)[i].size, Needed32(size))
                      then mem[..] == SplitWords(old(mem[..]), old(tiles)[i], Needed32(size)) &&
                           ptr == old(tiles)[i].at + Difference(old(tiles)[i].size, Needed32(size)) + HEADER
                      else Valid() && tiles == Allocate(old(tiles), SMALLEST) && ptr == old(tiles)[i].at + HEADER
    {
      hide WellTiled, Row, Linked, FirstFree, Coalesced, Needed, Needed32, UsedSame, NextFree, AllUsed, Sound;
      hide Allocate, Carve, FirstFit, FirstTaken, SplitTest, SplitWords, Difference;
      Untouched(mem[..], tiles, -1);
      if size == 0 {
        return NULL;
      }
      Tiled(tiles, mem.Length);
      SizesOf(tiles, mem.Length);
      var n := Needed32(size);
      var block, prev;
      ghost var i, p;
      block, prev, i, p := FindFit(n);
      if Sound(tiles, size) {
        SoundChoice(tiles, size);
      } else {
        UnsoundChoice(tiles, size);
      }
      NoneIsAllocated(tiles, Needed(size));
      WalkedUsed(tiles, p, i, prev, block);
      if block == NULL {
        return NULL;
      }
      if SplitTest(mem[block], n) {
        ptr := Split(i, block, n);
      } else {
        ptr := Take(i, p, block, prev, if Sound(tiles, size) then Needed(size) else SMALLEST);
      }
    }

    /** The loop of malloc: the first free block that passes one of the two size tests, and
        the free block before it. */
    method FindFit(n: nat) returns (block: int, prev: int, ghost i: nat, ghost p: int)
      requires Valid() && n < WORD
      ensures i == FirstTaken(tiles, n) && Walked(tiles, p, i, prev, block)
      ensures block == AddressOf(tiles, FirstTaken(tiles, n)) && (block != NULL <==> i < |tiles|)
      ensures block != NULL ==> 0 <= block < mem.Length && block == tiles[i].at && mem[block] == tiles[i].size < HALF
    {
      hide Valid, Walked, NextFree, FirstTaken, NonePassed, SplitTest, Passes;
      block, prev := freeList, NULL;
      i, p := NextFree(tiles, 0), -1;
      FreeListStarts();
      WalkStarts(tiles);
      NonePassesFirst(tiles, n);
      AtWalk(p, i, prev, block);
      while block != NULL && !(SplitTest(mem[block], n) || mem[block] >= n)
        invariant Valid() && i <= |tiles| && Walked(tiles, p, i, prev, block) && NonePassed(tiles, n, i)
        invariant block != NULL <==> i < |tiles|
        invariant block != NULL ==> 0 <= block && block + HEADER < mem.Length && mem[block] == tiles[i].size < HALF
        invariant block != NULL ==> mem[block + HEADER] == AddressOf(tiles, NextFree(tiles, i + 1))
        decreases |tiles| - i
      {
        FailsBoth(tiles[i].size, n);
        NonePassesOn(tiles, n, i);
        WalkGoesOn(tiles, p, i, prev, block);
        prev := block;
        block := mem[block + HEADER];
        p, i := i, NextFree(tiles, i + 1);
        AtWalk(p, i, prev, block);
      }
      WalkedTo(tiles, p, i, prev, block);
      if i < |tiles| {
        PassesOne(tiles[i].size, n);
      }
      TakenAt(tiles, n, i);
    }

    /** The memory represents the tiles, coalesced or not. */
    ghost predicate Represents()
      reads this, mem
    {
      Row(tiles, 0, mem.Length) && Linked(mem[..], tiles, NULL) && freeList == FirstFree(tiles, NULL)
    }

    /** The first step of free: the block goes between its neighbours in the free list. */
    method Insert(ghost i: nat, ghost p: int, block: nat, prev: int, cur: int)
      requires Valid() && i < |tiles| && !tiles[i].free && block == tiles[i].at
      requires -1 <= p < i && prev == (if p < 0 then NULL else tiles[p].at)
      requires (p >= 0 ==> tiles[p].free) && AllUsed(tiles[p + 1..i]) && cur == AddressOf(tiles, NextFree(tiles, i + 1))
      modifies this`tiles, this`freeList, mem
      ensures Represents() && tiles == old(tiles)[i := old(tiles)[i].(free := true)]
      ensures block + HEADER < mem.Length && mem[block + HEADER] == cur
      ensures UsedSame(old(mem[..]), mem[..], old(tiles), i)
    {
      hide WellTiled, Row, Linked, FirstFree, Coalesced, UsedSame, NextFree, AllUsed;
      ghost var m0 := mem[..];
      AtTile(i);
      Tiled(tiles, mem.Length);
      ToggleRow(tiles, 0, mem.Length, i, true);
      Untouched(m0, tiles, i);
      if prev == NULL {
        freeList := block;
        WriteInside(m0, m0, tiles, mem.Length, i, i, block + HEADER, cur);
        mem[block + HEADER] := cur;
        assert mem[..] == m0[block + HEADER := cur];
        ToggleFirst(m0, mem[..], tiles, mem.Length, i, true);
      } else {
        AtTile(p);
        InOrder(tiles, 0, mem.Length, p, i);
        WriteInside(m0, m0, tiles, mem.Length, i, p, prev + HEADER, block);
        WriteInside(m0, m0[prev + HEADER := block], tiles, mem.Length, i, i, block + HEADER, cur);
        mem[prev + HEADER] := block;
        mem[block + HEADER] := cur;
        assert mem[..] == m0[prev + HEADER := block][block + HEADER := cur];
        ToggleAfter(m0, mem[..], tiles, mem.Length, i, p, true);
      }
      tiles := tiles[i := tiles[i].(free := true)];
    }

    /** The two merges of free: the block at left swallows its right neighbour. */
    method Join(ghost k: nat, left: nat, right: nat, link: int)
      requires Represents() && k + 1 < |tiles| && tiles[k].free && tiles[k + 1].free
      requires left == tiles[k].at && right == tiles[k + 1].at
      requires right + HEADER < mem.Length && link == mem[right + HEADER]
      modifies this`tiles, mem
      ensures Represents() && tiles == Merge(old(tiles), k)
      ensures left + HEADER < mem.Length && right < mem.Length
      ensures mem[..] == old(mem[..])[left := old(mem[left] + mem[right])][left + HEADER := link]
    {
      hide Row, Linked, FirstFree;
      MergeLinked(mem[..], tiles, mem.Length, k);
      ghost var m0 := mem[..];
      LinkAt(m0, tiles, k);
      LinkAt(m0, tiles, k + 1);
      mem[left] := mem[left] + mem[right];
      mem[left + HEADER] := link;
      assert mem[..] == m0[left := m0[left] + m0[right]][left + HEADER := link];
      tiles := Merge(tiles, k);
    }

    /** The search of free goes on only before the block. */
    lemma WalkedBefore(p: int, c: nat, prev: int, cur: int, i: nat)
      requires Valid() && Walked(tiles, p, c, prev, cur) && i < |tiles| && !tiles[i].free
      requires cur != NULL && cur <= tiles[i].at
      ensures c < i
    {
      hide WellTiled, Linked, FirstFree, NextFree, AllUsed;
      Before(tiles, mem.Length, c, i);
    }

    lemma Arrived(p: int, c: nat, prev: int, cur: int, i: nat)
      requires Valid() && Walked(tiles, p, c, prev, cur) && p < i < |tiles| && !tiles[i].free
      requires cur == NULL || cur > tiles[i].at
      ensures -1 <= p && prev == (if p < 0 then NULL else tiles[p].at) && (p >= 0 ==> tiles[p].free)
      ensures AllUsed(tiles[p + 1..i]) && cur == AddressOf(tiles, NextFree(tiles, i + 1))
      ensures WellTiled(tiles, mem.Length) && mem.Length < HALF
    {
      hide WellTiled, Linked, FirstFree, NextFree, AllUsed;
      WalkedUsed(tiles, p, c, prev, cur);
      Between(tiles, mem.Length, p, i, c);
    }

    method Free(ptr: int)
      requires Valid() && (ptr == NULL || Owned(tiles, ptr))
      modifies this, mem
      ensures Valid()
      ensures ptr == NULL ==> tiles == old(tiles) && mem[..] == old(mem[..]) && freeList == old(freeList)
      ensures ptr != NULL ==> tiles == Release(old(tiles), IndexOf(old(tiles), ptr - HEADER))
      ensures UsedSame(old(mem[..]), mem[..], old(tiles), if ptr == NULL then -1 else IndexOf(old(tiles), ptr - HEADER))
    {
      hide Valid, WellTiled, Walked, UsedSame, NextFree, AllUsed, Release;
      ghost var m0, tiles0 := mem[..], tiles;
      Untouched(m0, tiles, -1);
      if ptr == NULL {
        return;
      }
      var block := ptr - HEADER;
      ghost var i := IndexOf(tiles, block);
      var cur, prev := freeList, NULL;
      ghost var c, p := NextFree(tiles, 0), -1;
      FreeListStarts();
      WalkStarts(tiles);
      while !(cur > block || cur == NULL)
        invariant Valid() && tiles == tiles0 && mem[..] == m0 && freeList == old(freeList)
        invariant c <= |tiles| && p < i && Walked(tiles, p, c, prev, cur)
        decreases |tiles| - c
      {
        AtWalk(p, c, prev, cur);
        WalkedBefore(p, c, prev, cur, i);
        WalkGoesOn(tiles, p, c, prev, cur);
        prev := cur;
        cur := mem[cur + HEADER];
        p, c := c, NextFree(tiles, c + 1);
      }
      Arrived(p, c, prev, cur, i);
      Insert(i, p, block, prev, cur);
      Coalesce(i, p, block, prev, cur, tiles0, m0);
    }

    /** The rest of free: merging with the block before and the block behind. */
    method Coalesce(ghost i: nat, ghost p: int, block0: nat, prev: int, cur: int,
                    ghost tiles0: seq<Tile>, ghost m0: seq<int>)
      requires Represents() && WellTiled(tiles0, mem.Length) && mem.Length < HALF
      requires i < |tiles0| && !tiles0[i].free && tiles == tiles0[i := tiles0[i].(free := true)]
      requires block0 == tiles0[i].at && block0 + HEADER < mem.Length && mem[block0 + HEADER] == cur
      requires -1 <= p < i && prev == (if p < 0 then NULL else tiles0[p].at) && (p >= 0 ==> tiles0[p].free)
      requires AllUsed(tiles0[p + 1..i]) && cur == AddressOf(tiles0, NextFree(tiles0, i + 1))
      requires UsedSame(m0, mem[..], tiles0, i)
      modifies this`tiles, mem
      ensures Valid() && tiles == Release(tiles0, i)
      ensures UsedSame(m0, mem[..], tiles0, i)
    {
      hide WellTiled, Row, Linked, FirstFree, Coalesced, UsedSame, NextFree, AllUsed, Release, Merge;
      Tiled(tiles0, mem.Length);
      Placed(tiles0, 0, mem.Length, i);
      LinkAt(mem[..], tiles, i);
      LeftNeighbour(tiles0, mem.Length, p, i);
      RightNeighbour(tiles0, mem.Length, i);
      var block := block0;
      ghost var l := i;
      if prev != NULL {
        LinkAt(mem[..], tiles, p);
        Placed(tiles0, 0, mem.Length, p);
      }
      if prev != NULL && block - prev == mem[prev] {
        JoinWithin(p, prev, block, cur, tiles0, i, p, m0);
        block := prev;
        l := p;
      }
      AfterLeft(tiles0, i, l);
      LinkAt(mem[..], tiles, l);
      if cur != NULL && cur - block == mem[block] {
        LinkAt(mem[..], tiles, l + 1);
        Placed(tiles0, 0, mem.Length, l);
        JoinWithin(l, block, cur, mem[cur + HEADER], tiles0, i, l, m0);
      }
      ReleaseKeeps(tiles0, mem.Length, i);
    }

    /** Join, with the words of the other allocated blocks of tiles0 left alone. */
    method JoinWithin(ghost k: nat, left: nat, right: nat, link: int,
                      ghost tiles0: seq<Tile>, ghost i: int, ghost j: nat, ghost m0: seq<int>)
      requires Represents() && k + 1 < |tiles| && tiles[k].free && tiles[k + 1].free
      requires left == tiles[k].at && right == tiles[k + 1].at
      requires right + HEADER < mem.Length && link == mem[right + HEADER]
      requires Row(tiles0, 0, mem.Length) && UsedSame(m0, mem[..], tiles0, i)
      requires j < |tiles0| && left == tiles0[j].at && (tiles0[j].free || i == j) && tiles0[j].size >= SMALLEST
      modifies this`tiles, mem
      ensures Represents() && tiles == Merge(old(tiles), k)
      ensures UsedSame(m0, mem[..], tiles0, i)
    {
      hide Row, Linked, FirstFree, UsedSame;
      ghost var m1 := mem[..];
      LinkAt(m1, tiles, k);
      WriteInside(m0, m1, tiles0, mem.Length, i, j, left, mem[left] + mem[right]);
      WriteInside(m0, m1[left := mem[left] + mem[right]], tiles0, mem.Length, i, j, left + HEADER, link);
      Join(k, left, right, link);
    }

    /** The user writes a word of a block it has been given. */
    method Store(address: nat, v: int, ghost k: nat)
      requires Valid() && k < |tiles| && !tiles[k].free
      requires tiles[k].at + HEADER <= address < tiles[k].at + tiles[k].size
      modifies mem
      ensures Valid() && address < mem.Length && mem[..] == old(mem[..])[address := v]
      ensures UsedSame(old(mem[..]), mem[..], tiles, k)
    {
      hide WellTiled, Row, Linked, FirstFree, Coalesced, UsedSame;
      ghost var m0 := mem[..];
      Tiled(tiles, mem.Length);
      Placed(tiles, 0, mem.Length, k);
      Untouched(m0, tiles, k);
      WriteInside(m0, m0, tiles, mem.Length, k, k, address, v);
      PayloadFree(m0, tiles, mem.Length, k, address, v);
      mem[address] := v;
      assert mem[..] == m0[address := v];
    }
  }

  /** ptr is a block that malloc gave out and that was not freed since. */
  predicate Owned(tiles: seq<Tile>, ptr: int) {
    var i := IndexOf(tiles, ptr - HEADER);
    ptr >= HEADER && i < |tiles| && !tiles[i].free
  }

  /** The tile at an offset, or the number of tiles. */
  function IndexOf(tiles: seq<Tile>, at: int): (i: nat)
    ensures i <= |tiles|
    ensures i < |tiles| ==> tiles[i].at == at
  {
    if tiles == [] || tiles[0].at == at then 0 else 1 + IndexOf(tiles[1..], at)
  }

  lemma FailsBoth(have: nat, n: nat)
    requires have < HALF && n < WORD && !(SplitTest(have, n) || have >= n)
    ensures !Passes(have, n)
  {
  }

  lemma PassesOne(have: nat, n: nat)
    requires have < HALF && n < WORD && (SplitTest(have, n) || have >= n)
    ensures Passes(have, n)
  {
  }

  lemma WalkedTo(tiles: seq<Tile>, p: int, i: nat, prev: int, cur: int)
    requires Walked(tiles, p, i, prev, cur)
    ensures i <= |tiles| && if i < |tiles| then tiles[i].free && cur == tiles[i].at else cur == NULL
  {
    hide AllUsed;
  }

  lemma NoneIsAllocated(tiles: seq<Tile>, n: nat)
    ensures FirstFit(tiles, n) == |tiles| ==> Allocate(tiles, n) == tiles
  {
  }

  lemma Before(tiles: seq<Tile>, total: nat, c: nat, i: nat)
    requires WellTiled(tiles, total) && c < |tiles| && i < |tiles| && tiles[c].at <= tiles[i].at
    requires tiles[c].free && !tiles[i].free
    ensures c < i
  {
    if i < c {
      InOrder(tiles, 0, total, i, c);
      Placed(tiles, 0, total, i);
    }
  }

  /** The place where the search of free stops: behind the last free tile before the block,
      in front of the first one behind it. */
  lemma Between(tiles: seq<Tile>, total: nat, p: int, i: nat, c: nat)
    requires WellTiled(tiles, total) && -1 <= p < i < |tiles| && p < c <= |tiles| && !tiles[i].free
    requires AllUsed(tiles[p + 1..c]) && (c < |tiles| ==> tiles[c].free && tiles[c].at > tiles[i].at)
    ensures AllUsed(tiles[p + 1..i]) && c == NextFree(tiles, i + 1)
  {
    if c < i {
      InOrder(tiles, 0, total, c, i);
    }
    assert i < c;
    UsedAt(tiles, p + 1, c);
  }

  lemma UsedAt(tiles: seq<Tile>, lo: nat, hi: nat)
    requires lo <= hi <= |tiles| && AllUsed(tiles[lo..hi])
    ensures forall k :: lo <= k < hi ==> !tiles[k].free
  {
    forall k | lo <= k < hi ensures !tiles[k].free {
      assert tiles[lo..hi][k - lo] == tiles[k];
    }
  }

  lemma AfterLeft(tiles: seq<Tile>, i: nat, l: nat)
    requires i < |tiles| && l == if i > 0 && tiles[i - 1].free then i - 1 else i
    ensures var t1 := tiles[i := tiles[i].(free := true)];
            var t := if l < i then Merge(t1, l) else t1;
            && l < |t| && t[l].at == tiles[l].at && t[l].free && t[l + 1..] == tiles[i + 1..]
            && (i + 1 < |tiles| ==> l + 1 < |t| && t[l + 1] == tiles[i + 1])
            && t[l].size == tiles[i].size + (if l < i then tiles[l].size else 0)
            && Release(tiles, i) == if i + 1 < |tiles| && tiles[i + 1].free then Merge(t, l) else t
  {
  }

  lemma LeftNeighbour(tiles: seq<Tile>, total: nat, p: int, i: nat)
    requires Row(tiles, 0, total) && -1 <= p < i < |tiles| && (p >= 0 ==> tiles[p].free) && AllUsed(tiles[p + 1..i])
    ensures p >= 0 ==> (tiles[i].at - tiles[p].at == tiles[p].size <==> p == i - 1)
    ensures i > 0 && tiles[i - 1].free <==> p >= 0 && p == i - 1
  {
    if p >= 0 {
      Placed(tiles, 0, total, p);
      if p < i - 1 {
        InOrder(tiles, 0, total, p + 1, i);
        Placed(tiles, 0, total, p + 1);
      }
    }
    UsedAt(tiles, p + 1, i);
  }

  lemma RightNeighbour(tiles: seq<Tile>, total: nat, i: nat)
    requires Row(tiles, 0, total) && i < |tiles|
    ensures var c := NextFree(tiles, i + 1);
            && (c < |tiles| ==> (tiles[c].at == tiles[i].at + tiles[i].size <==> c == i + 1))
            && (i + 1 < |tiles| && tiles[i + 1].free <==> c < |tiles| && c == i + 1)
  {
    var c := NextFree(tiles, i + 1);
    Placed(tiles, 0, total, i);
    if i + 1 < c < |tiles| {
      InOrder(tiles, 0, total, i + 1, c);
      Placed(tiles, 0, total, i + 1);
    }
  }

  /** Writing inside an allocated block, behind its header, harms no header and no link. */
  lemma PayloadFree(mem: seq<int>, tiles: seq<Tile>, total: nat, k: nat, x: nat, v: int)
    requires Row(tiles, 0, total) && Linked(mem, tiles, NULL) && total <= |mem|
    requires k < |tiles| && !tiles[k].free && tiles[k].at + HEADER <= x < tiles[k].at + tiles[k].size && x < |mem|
    ensures Linked(mem[x := v], tiles, NULL)
  {
    hide Row, End, Linked, FirstFree;
    var a, t, b := tiles[..k], tiles[k], tiles[k + 1..];
    var tail := FirstFree(b, NULL);
    assert tiles == a + [t] + b;
    StartsAt(a, [t], b, 0, total);
    UsedLinked(mem, mem[x := v], t, tail);
    SpliceLinked(mem, mem[x := v], a, [t], [t], b, 0, total);
  }

  lemma UsedLinked(mem: seq<int>, mem': seq<int>, t: Tile, tail: int)
    requires !t.free && |mem| == |mem'| && (t.at < |mem| ==> mem'[t.at] == mem[t.at])
    ensures Linked(mem, [t], tail) ==> Linked(mem', [t], tail)
  {
  }

  /** What a request of 2^32 - 3 bytes does to a new heap of the source's size: it gets a
      pointer, and no row of blocks describes the heap any more. */
  method WrappedRequestTears() returns (h: Heap, ptr: int)
    ensures h.mem.Length == 256 && ptr == 252 + HEADER
    ensures forall tiles :: !(WellTiled(tiles, 256) && Linked(h.mem[..], tiles, NULL))
  {
    h := new Heap(256);
    ghost var one := [Tile(0, 256, true)];
    WrappedIs(one);
    ptr := h.Malloc(0xFFFF_FFFD);
    forall tiles ensures !(WellTiled(tiles, 256) && Linked(h.mem[..], tiles, NULL)) {
      TornHeap(h.mem[..], tiles);
    }
  }

  lemma WrappedIs(tiles: seq<Tile>)
    requires tiles == [Tile(0, 256, true)]
    ensures Needed32(0xFFFF_FFFD) == 4 && SplitTest(256, 4) && FirstTaken(tiles, 4) == 0
    ensures !Sound(tiles, 0xFFFF_FFFD)
  {
    assert tiles[0].free;
  }
}
