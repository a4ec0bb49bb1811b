/** Whole runs of malloc and free calls. */
module HeapRuns {
  import opened HeapTiles
  import opened HeapLinks
  import opened HeapRequests
  import opened HeapAllocator

  /** One call of the user: a sound malloc(size), or free of a pointer it owns. */
  datatype Call = Malloc(size: nat) | Free(ptr: int)

  predicate Allowed(tiles: seq<Tile>, c: Call) {
    match c
    case Malloc(size) => size < WORD && (size == 0 || Sound(tiles, size))
    case Free(ptr) => ptr == NULL || Owned(tiles, ptr)
  }

  function After(tiles: seq<Tile>, c: Call): seq<Tile>
    requires Allowed(tiles, c)
  {
    match c
    case Malloc(size) => if size == 0 then tiles else Allocate(tiles, Needed(size))
    case Free(ptr) => if ptr == NULL then tiles else Release(tiles, IndexOf(tiles, ptr - HEADER))
  }

  predicate IsRun(ts: seq<seq<Tile>>, calls: seq<Call>, total: nat) {
    && |ts| == |calls| + 1 && total >= SMALLEST && total % 4 == 0
    && ts[0] == [Tile(0, total, true)]
    && forall i :: 0 <= i < |calls| ==> Allowed(ts[i], calls[i]) && ts[i + 1] == After(ts[i], calls[i])
  }

  lemma AfterKeeps(tiles: seq<Tile>, c: Call, total: nat)
    requires WellTiled(tiles, total) && Allowed(tiles, c)
    ensures WellTiled(After(tiles, c), total)
  {
    if c.Malloc? && c.size > 0 {
      AllocateKeeps(tiles, total, Needed(c.size));
    }
    if c.Free? && c.ptr != NULL {
      ReleaseKeeps(tiles, total, IndexOf(tiles, c.ptr - HEADER));
    }
  }

  /** After any calls, in any order, the blocks tile the heap and no two free ones touch. */
  lemma {:induction false} AlwaysTiled(ts: seq<seq<Tile>>, calls: seq<Call>, total: nat, i: nat)
    requires IsRun(ts, calls, total) && i < |ts|
    ensures WellTiled(ts[i], total)
  {
    hide WellTiled, After, Allowed;
    if i == 0 {
      WholeTiled(total);
    } else {
      AlwaysTiled(ts, calls, total, i - 1);
      AfterKeeps(ts[i - 1], calls[i - 1], total);
    }
  }

  lemma WholeTiled(total: nat)
    requires total >= SMALLEST && total % 4 == 0
    ensures WellTiled([Tile(0, total, true)], total)
  {
    assert [Tile(0, total, true)][1..] == [];
  }

  /** The allocated blocks, as offset and size. */
  ghost function Blocks(tiles: seq<Tile>): set<(nat, nat)> {
    if tiles == [] then {}
    else (if tiles[0].free then {} else {(tiles[0].at, tiles[0].size)}) + Blocks(tiles[1..])
  }

  lemma {:induction false} BlocksSplit(a: seq<Tile>, b: seq<Tile>)
    ensures Blocks(a + b) == Blocks(a) + Blocks(b)
  {
    if a == [] {
      assert a + b == b;
    } else {
      assert (a + b)[1..] == a[1..] + b;
      BlocksSplit(a[1..], b);
    }
  }

  lemma {:induction false} BlocksWithin(tiles: seq<Tile>, lo: nat, hi: nat)
    requires Row(tiles, lo, hi)
    ensures forall x, s :: (x, s) in Blocks(tiles) ==> lo <= x && x + s <= hi && s > 0
  {
    if tiles != [] {
      RowEnds(tiles[1..], lo + tiles[0].size, hi);
      BlocksWithin(tiles[1..], lo + tiles[0].size, hi);
    }
  }

  /** No two allocated blocks overlap. */
  lemma {:induction false} BlocksApart(tiles: seq<Tile>, lo: nat, hi: nat, x: nat, s: nat, y: nat, r: nat)
    requires Row(tiles, lo, hi) && (x, s) in Blocks(tiles) && (y, r) in Blocks(tiles) && (x, s) != (y, r)
    ensures x + s <= y || y + r <= x
  {
    if tiles != [] {
      BlocksWithin(tiles[1..], lo + tiles[0].size, hi);
      if (x, s) in Blocks(tiles[1..]) && (y, r) in Blocks(tiles[1..]) {
        BlocksApart(tiles[1..], lo + tiles[0].size, hi, x, s, y, r);
      }
    }
  }

  lemma {:induction false} NoBlocks(tiles: seq<Tile>)
    requires Blocks(tiles) == {}
    ensures forall k :: 0 <= k < |tiles| ==> tiles[k].free
  {
    if tiles != [] {
      NoBlocks(tiles[1..]);
      forall k | 0 <= k < |tiles| ensures tiles[k].free {
        if k > 0 {
          assert tiles[k] == tiles[1..][k - 1];
        }
      }
    }
  }

  lemma BlocksOne(t: Tile)
    ensures Blocks([t]) == if t.free then {} else {(t.at, t.size)}
  {
    assert [t][1..] == [];
  }

  lemma BlocksTwo(t: Tile, u: Tile)
    ensures Blocks([t, u]) == Blocks([t]) + Blocks([u])
  {
    assert [t, u] == [t] + [u];
    BlocksSplit([t], [u]);
  }

  /** A tile's block is in no other part of the row. */
  lemma BlockOnce(a: seq<Tile>, t: Tile, b: seq<Tile>, total: nat)
    requires Row(a + [t] + b, 0, total)
    ensures forall s :: (t.at, s) !in Blocks(a) && (t.at, s) !in Blocks(b)
    ensures forall x, s :: t.at < x < t.at + t.size ==> (x, s) !in Blocks(a) && (x, s) !in Blocks(b)
  {
    hide Row, Blocks;
    RowSplit(a + [t], b, 0, total);
    RowSplit(a, [t], 0, End(a + [t], 0));
    RowEnds([t], End(a, 0), End(a + [t], 0));
    Placed([t], End(a, 0), End(a + [t], 0), 0);
    LastEnds([t], End(a, 0), End(a + [t], 0));
    BlocksWithin(a, 0, End(a, 0));
    BlocksWithin(b, End(a + [t], 0), total);
  }

  /** malloc adds one block, big enough and new; all others stay what they were. */
  lemma MallocAdds(tiles: seq<Tile>, total: nat, n: nat) returns (s: nat)
    requires WellTiled(tiles, total) && n >= SMALLEST && FirstFit(tiles, n) < |tiles|
    ensures var x := Carved(tiles[FirstFit(tiles, n)], n);
            && Blocks(Allocate(tiles, n)) == Blocks(tiles) + {(x, s)}
            && (x, s) !in Blocks(tiles) && n <= s < n + SMALLEST
  {
    hide Row, Blocks, FirstFit;
    var i := FirstFit(tiles, n);
    var a, t, b := tiles[..i], tiles[i], tiles[i + 1..];
    assert tiles == a + [t] + b;
    s := if t.size - n >= SMALLEST then n else t.size;
    BlocksSplit(a + [t], b);
    BlocksSplit(a, [t]);
    BlocksSplit(a + Carve(t, n), b);
    BlocksSplit(a, Carve(t, n));
    BlocksOne(t);
    BlocksOne(t.(free := false));
    BlocksOne(Tile(t.at, t.size - n, true));
    BlocksOne(Tile(t.at + t.size - n, n, false));
    BlocksTwo(Tile(t.at, t.size - n, true), Tile(t.at + t.size - n, n, false));
    BlockOnce(a, t, b, total);
  }

  /** free removes exactly the block it was given. */
  lemma FreeRemoves(tiles: seq<Tile>, total: nat, i: nat)
    requires WellTiled(tiles, total) && i < |tiles| && !tiles[i].free
    ensures Blocks(Release(tiles, i)) == Blocks(tiles) - {(tiles[i].at, tiles[i].size)}
    ensures (tiles[i].at, tiles[i].size) in Blocks(tiles)
  {
    hide Row, Blocks, Release, Coalesced;
    var lo, hi, size := ReleaseIs(tiles, i);
    var a, u, v, b := tiles[..lo], tiles[lo..i], tiles[i + 1..hi], tiles[hi..];
    assert a + u == tiles[..i] && v + b == tiles[i + 1..];
    assert tiles == (a + u) + [tiles[i]] + (v + b);
    SplicedOut(a, u, tiles[i], v, b, Tile(tiles[lo].at, size, true), total);
  }

  lemma SplicedOut(a: seq<Tile>, u: seq<Tile>, t: Tile, v: seq<Tile>, b: seq<Tile>, one: Tile, total: nat)
    requires Row((a + u) + [t] + (v + b), 0, total) && !t.free && one.free
    requires |u| <= 1 && |v| <= 1
    requires forall k :: 0 <= k < |u| ==> u[k].free
    requires forall k :: 0 <= k < |v| ==> v[k].free
    ensures Blocks(a + [one] + b) == Blocks((a + u) + [t] + (v + b)) - {(t.at, t.size)}
    ensures (t.at, t.size) in Blocks((a + u) + [t] + (v + b))
  {
    hide Row, Blocks;
    BlocksAround(a, u, t, v, b);
    BlockOnce(a + u, t, v + b, total);
    BlocksSplit(a + [one], b);
    BlocksSplit(a, [one]);
    BlocksOne(one);
    assert (t.at, t.size) !in Blocks(a) && (t.at, t.size) !in Blocks(b);
  }

  lemma BlocksAround(a: seq<Tile>, u: seq<Tile>, t: Tile, v: seq<Tile>, b: seq<Tile>)
    requires |u| <= 1 && |v| <= 1 && !t.free
    requires forall k :: 0 <= k < |u| ==> u[k].free
    requires forall k :: 0 <= k < |v| ==> v[k].free
    ensures Blocks((a + u) + [t] + (v + b)) == Blocks(a) + {(t.at, t.size)} + Blocks(b)
    ensures Blocks(a + u) == Blocks(a) && Blocks(v + b) == Blocks(b)
  {
    hide Blocks;
    NoneUsed(u);
    NoneUsed(v);
    BlocksSplit(a, u);
    BlocksSplit(v, b);
    BlocksSplit((a + u) + [t], v + b);
    BlocksSplit(a + u, [t]);
    BlocksOne(t);
  }

  lemma NoneUsed(tiles: seq<Tile>)
    requires |tiles| <= 1 && forall k :: 0 <= k < |tiles| ==> tiles[k].free
    ensures Blocks(tiles) == {}
  {
  }

  /** The tile that starts at x is allocated exactly if a block starts there. */
  lemma {:induction false} BlockAt(tiles: seq<Tile>, lo: nat, hi: nat, x: nat)
    requires Row(tiles, lo, hi)
    ensures (IndexOf(tiles, x) < |tiles| && !tiles[IndexOf(tiles, x)].free) <==> exists s: nat :: (x, s) in Blocks(tiles)
  {
    if tiles != [] {
      BlocksWithin(tiles[1..], lo + tiles[0].size, hi);
      BlockAt(tiles[1..], lo + tiles[0].size, hi, x);
      if tiles[0].at == x && !tiles[0].free {
        assert (x, tiles[0].size) in Blocks(tiles);
      }
    }
  }

  /** A pointer may be freed exactly if a block's header is right before it, and freeing it takes
      that block away and no other. */
  lemma FreesItsBlock(tiles: seq<Tile>, total: nat, ptr: nat)
    requires WellTiled(tiles, total)
    ensures Owned(tiles, ptr) <==> exists x: nat, s: nat :: (x, s) in Blocks(tiles) && ptr == x + 4
    ensures Owned(tiles, ptr) ==>
              Blocks(After(tiles, Free(ptr))) == set b | b in Blocks(tiles) && b.0 + 4 != ptr
  {
    hide Row, Blocks, Release, IndexOf;
    if ptr >= HEADER {
      BlockAt(tiles, 0, total, ptr - HEADER);
    }
    if Owned(tiles, ptr) {
      var i := IndexOf(tiles, ptr - HEADER);
      FreeRemoves(tiles, total, i);
      forall b | b in Blocks(tiles) && b.0 + 4 == ptr ensures b == (tiles[i].at, tiles[i].size) {
        OneSize(tiles, total, b.0, b.1, tiles[i].size);
      }
    }
  }

  lemma OneSize(tiles: seq<Tile>, total: nat, x: nat, s: nat, r: nat)
    requires Row(tiles, 0, total) && (x, s) in Blocks(tiles) && (x, r) in Blocks(tiles)
    ensures s == r
  {
    hide Row, Blocks;
    BlocksWithin(tiles, 0, total);
    if s != r {
      BlocksApart(tiles, 0, total, x, s, x, r);
    }
  }

  predicate Gives(tiles: seq<Tile>, c: Call) {
    c.Malloc? && c.size > 0 && FirstFit(tiles, Needed(c.size)) < |tiles|
  }

  predicate Takes(c: Call) {
    c.Free? && c.ptr != NULL
  }

  /** The mallocs that gave a block, and the frees that took one, among the first i calls. */
  function Given(ts: seq<seq<Tile>>, calls: seq<Call>, i: nat): nat
    requires i <= |calls| && |ts| == |calls| + 1
  {
    if i == 0 then 0
    else Given(ts, calls, i - 1)
         + if Gives(ts[i - 1], calls[i - 1]) then 1 else 0
  }

  function Taken(calls: seq<Call>, i: nat): nat
    requires i <= |calls|
  {
    if i == 0 then 0 else Taken(calls, i - 1) + if Takes(calls[i - 1]) then 1 else 0
  }

  lemma {:induction false} BlocksCounted(ts: seq<seq<Tile>>, calls: seq<Call>, total: nat, i: nat)
    requires IsRun(ts, calls, total) && i < |ts|
    ensures |Blocks(ts[i])| + Taken(calls, i) == Given(ts, calls, i)
  {
    if i == 0 {
      BlocksOne(Tile(0, total, true));
    } else {
      BlocksCounted(ts, calls, total, i - 1);
      AlwaysTiled(ts, calls, total, i - 1);
      BlocksChange(ts[i - 1], calls[i - 1], total);
    }
  }

  lemma BlocksChange(tiles: seq<Tile>, c: Call, total: nat)
    requires WellTiled(tiles, total) && Allowed(tiles, c)
    ensures |Blocks(After(tiles, c))| ==
              |Blocks(tiles)| + (if Gives(tiles, c) then 1 else 0) - (if Takes(c) then 1 else 0)
  {
    hide Row, Blocks, Release, FirstFit, Coalesced, Needed;
    if Gives(tiles, c) {
      var s := MallocAdds(tiles, total, Needed(c.size));
    }
    if Takes(c) {
      FreeRemoves(tiles, total, IndexOf(tiles, c.ptr - HEADER));
    }
  }

  /** Once as many blocks were freed as were given, whatever the order, the heap is again
      one free block of its full size. */
  lemma FreeingAllGivesWhole(ts: seq<seq<Tile>>, calls: seq<Call>, total: nat, i: nat)
    requires IsRun(ts, calls, total) && i < |ts|
    requires Taken(calls, i) == Given(ts, calls, i)
    ensures ts[i] == [Tile(0, total, true)]
  {
    AlwaysTiled(ts, calls, total, i);
    BlocksCounted(ts, calls, total, i);
    NoBlocks(ts[i]);
    NothingAllocated(ts[i], total);
  }
}
