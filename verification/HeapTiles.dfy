/** The user library's heap as a row of tiles, and what malloc and free do to it. */
module HeapTiles {
  /** A block from byte offset at on, header included. */
  datatype Tile = Tile(at: nat, size: nat, free: bool)

  const HEADER: nat := 4
  const MIN_ALLOC_SIZE: nat := 8
  const SMALLEST: nat := MIN_ALLOC_SIZE + HEADER

  /** The tiles cover the bytes from lo up to hi without gap or overlap; all are whole words
      and big enough for a header and a link. */
  ghost predicate Row(tiles: seq<Tile>, lo: nat, hi: nat) {
    if tiles == [] then lo == hi
    else
      && tiles[0].at == lo && lo % 4 == 0 && tiles[0].size % 4 == 0 && tiles[0].size >= SMALLEST
      && Row(tiles[1..], lo + tiles[0].size, hi)
  }

  /** No two neighbours are both free. */
  ghost predicate Coalesced(tiles: seq<Tile>) {
    forall i, j :: 0 <= i < j == i + 1 < |tiles| ==> !(tiles[i].free && tiles[j].free)
  }

  ghost predicate WellTiled(tiles: seq<Tile>, total: nat) {
    tiles != [] && Row(tiles, 0, total) && Coalesced(tiles)
  }

  /** Where a row that starts at lo ends. */
  function End(tiles: seq<Tile>, lo: nat): (hi: nat)
    ensures hi >= lo
  {
    if tiles == [] then lo else End(tiles[1..], lo + tiles[0].size)
  }

  lemma {:induction false} RowSplit(a: seq<Tile>, b: seq<Tile>, lo: nat, hi: nat)
    ensures Row(a + b, lo, hi) <==> Row(a, lo, End(a, lo)) && Row(b, End(a, lo), hi)
  {
    if a == [] {
      assert a + b == b;
    } else {
      assert (a + b)[1..] == a[1..] + b;
      RowSplit(a[1..], b, lo + a[0].size, hi);
    }
  }

  lemma {:induction false} RowEnds(tiles: seq<Tile>, lo: nat, hi: nat)
    requires Row(tiles, lo, hi)
    ensures hi == End(tiles, lo) && lo <= hi
    ensures tiles != [] ==> tiles[0].at == lo
  {
    if tiles != [] {
      RowEnds(tiles[1..], lo + tiles[0].size, hi);
    }
  }

  lemma CoalescedSplit(a: seq<Tile>, b: seq<Tile>)
    ensures Coalesced(a + b) <==>
              Coalesced(a) && Coalesced(b) && (a != [] && b != [] ==> !(a[|a| - 1].free && b[0].free))
  {
    var c := a + b;
    if Coalesced(c) {
      forall i, j | 0 <= i < j == i + 1 < |a| ensures !(a[i].free && a[j].free) {
        assert a[i] == c[i] && a[j] == c[j];
      }
      forall i, j | 0 <= i < j == i + 1 < |b| ensures !(b[i].free && b[j].free) {
        assert b[i] == c[|a| + i] && b[j] == c[|a| + j];
      }
      if a != [] && b != [] {
        assert a[|a| - 1] == c[|a| - 1] && b[0] == c[|a|];
      }
    }
    if Coalesced(a) && Coalesced(b) && (a != [] && b != [] ==> !(a[|a| - 1].free && b[0].free)) {
      forall i, j | 0 <= i < j == i + 1 < |c| ensures !(c[i].free && c[j].free) {
        if j < |a| {
          assert c[i] == a[i] && c[j] == a[j];
        } else if i >= |a| {
          assert c[i] == b[i - |a|] && c[j] == b[j - |a|];
        } else {
          assert c[i] == a[|a| - 1] && c[j] == b[0];
        }
      }
    }
  }

  /** Tiles that stand in order do not overlap. */
  lemma {:induction false} InOrder(tiles: seq<Tile>, lo: nat, hi: nat, i: nat, j: nat)
    requires Row(tiles, lo, hi) && i < j < |tiles|
    ensures lo <= tiles[i].at && tiles[i].at + tiles[i].size <= tiles[j].at
  {
    if i == 0 {
      Placed(tiles[1..], lo + tiles[0].size, hi, j - 1);
    } else {
      InOrder(tiles[1..], lo + tiles[0].size, hi, i - 1, j - 1);
    }
  }

  lemma {:induction false} Placed(tiles: seq<Tile>, lo: nat, hi: nat, i: nat)
    requires Row(tiles, lo, hi) && i < |tiles|
    ensures lo <= tiles[i].at && tiles[i].at + tiles[i].size <= hi
    ensures tiles[i].at % 4 == 0 && tiles[i].size % 4 == 0 && tiles[i].size >= SMALLEST
    ensures i + 1 < |tiles| ==> tiles[i + 1].at == tiles[i].at + tiles[i].size
  {
    RowEnds(tiles[1..], lo + tiles[0].size, hi);
    if i > 0 {
      Placed(tiles[1..], lo + tiles[0].size, hi, i - 1);
    }
  }

  /** The bytes malloc needs for a request: a multiple of four, at least eight, and a header. */
  function Needed(size: nat): (n: nat)
    ensures n >= SMALLEST && n % 4 == 0 && size + HEADER <= n
    ensures n < size + HEADER + 4 || n == SMALLEST
  {
    var s := if size < MIN_ALLOC_SIZE then MIN_ALLOC_SIZE else size;
    (if s % 4 != 0 then s - s % 4 + 4 else s) + HEADER
  }

  /** The first free tile that can hold n bytes, or the number of tiles. */
  function FirstFit(tiles: seq<Tile>, n: nat): (i: nat)
    ensures i <= |tiles|
    ensures i < |tiles| ==> tiles[i].free && tiles[i].size >= n
    ensures forall k :: 0 <= k < i ==> !(tiles[k].free && tiles[k].size >= n)
  {
    if tiles == [] then 0
    else if tiles[0].free && tiles[0].size >= n then 0
    else 1 + FirstFit(tiles[1..], n)
  }

  /** The tile is split from its end if what stays is a tile, else taken whole. */
  function Carve(t: Tile, n: nat): seq<Tile>
    requires t.size >= n
  {
    if t.size - n >= SMALLEST
    then [Tile(t.at, t.size - n, true), Tile(t.at + t.size - n, n, false)]
    else [t.(free := false)]
  }

  /** The offset of the block malloc hands out from tile t. */
  function Carved(t: Tile, n: nat): nat
    requires t.size >= n
  {
    if t.size - n >= SMALLEST then t.at + t.size - n else t.at
  }

  function Allocate(tiles: seq<Tile>, n: nat): seq<Tile> {
    var i := FirstFit(tiles, n);
    if i < |tiles| then tiles[..i] + Carve(tiles[i], n) + tiles[i + 1..] else tiles
  }

  /** Tile k and its right neighbour become one. */
  function Merge(tiles: seq<Tile>, k: nat): seq<Tile>
    requires k + 1 < |tiles|
  {
    tiles[..k] + [tiles[k].(size := tiles[k].size + tiles[k + 1].size)] + tiles[k + 2..]
  }

  function MergeLeft(tiles: seq<Tile>, i: nat): seq<Tile>
    requires i < |tiles|
  {
    if i > 0 && tiles[i - 1].free then Merge(tiles, i - 1) else tiles
  }

  function MergeRight(tiles: seq<Tile>, i: nat): seq<Tile>
    requires i < |tiles|
  {
    if i + 1 < |tiles| && tiles[i + 1].free then Merge(tiles, i) else tiles
  }

  /** Freeing tile i: first merged with the tile before it, then with the one behind it. */
  function Release(tiles: seq<Tile>, i: nat): seq<Tile>
    requires i < |tiles|
  {
    var t := tiles[i := tiles[i].(free := true)];
    MergeRight(MergeLeft(t, i), if i > 0 && tiles[i - 1].free then i - 1 else i)
  }

  /** Replacing the tiles mid by others that cover the same bytes. */
  lemma SpliceRow(a: seq<Tile>, mid: seq<Tile>, b: seq<Tile>, m: seq<Tile>, lo: nat, hi: nat)
    requires Row(a + mid + b, lo, hi)
    requires Row(mid, End(a, lo), End(mid, End(a, lo))) ==> Row(m, End(a, lo), End(mid, End(a, lo)))
    ensures Row(a + m + b, lo, hi)
  {
    hide Row, End;
    RowSplit(a + mid, b, lo, hi);
    RowSplit(a, mid, lo, End(a + mid, lo));
    RowEnds(mid, End(a, lo), End(a + mid, lo));
    RowSplit(a, m, lo, End(a + mid, lo));
    RowEnds(a + m, lo, End(a + mid, lo));
    RowSplit(a + m, b, lo, hi);
  }

  lemma CarveRow(t: Tile, n: nat, lo: nat, hi: nat)
    requires Row([t], lo, hi) && n >= SMALLEST && n % 4 == 0 && t.size >= n
    ensures Row(Carve(t, n), lo, hi)
  {
    assert Carve(t, n)[1..] == if t.size - n >= SMALLEST then [Tile(t.at + t.size - n, n, false)] else [];
  }

  lemma AllocateKeeps(tiles: seq<Tile>, total: nat, n: nat)
    requires WellTiled(tiles, total) && n >= SMALLEST && n % 4 == 0
    ensures WellTiled(Allocate(tiles, n), total)
  {
    hide Row, End, Coalesced;
    var i := FirstFit(tiles, n);
    if i < |tiles| {
      var a, t, m, b := tiles[..i], tiles[i], Carve(tiles[i], n), tiles[i + 1..];
      assert tiles == a + [t] + b;
      if Row([t], End(a, 0), End([t], End(a, 0))) {
        CarveRow(t, n, End(a, 0), End([t], End(a, 0)));
      }
      SpliceRow(a, [t], b, m, 0, total);
      CoalescedSplit(a + [t], b);
      CoalescedSplit(a, [t]);
      CoalescedSplit(a, m);
      CoalescedSplit(a + m, b);
      assert Coalesced(m) by {
        CoalescedCarve(t, n);
      }
    }
  }

  lemma CoalescedCarve(t: Tile, n: nat)
    requires t.size >= n
    ensures Coalesced(Carve(t, n))
  {
  }

  /** What Release is, written as one splice: from lo up to hi the tiles become one. */
  lemma ReleaseIs(tiles: seq<Tile>, i: nat) returns (lo: nat, hi: nat, size: nat)
    requires i < |tiles|
    ensures lo == if i > 0 && tiles[i - 1].free then i - 1 else i
    ensures hi == if i + 1 < |tiles| && tiles[i + 1].free then i + 2 else i + 1
    ensures size == tiles[i].size + (if lo < i then tiles[lo].size else 0) + (if hi > i + 1 then tiles[i + 1].size else 0)
    ensures Release(tiles, i) == tiles[..lo] + [Tile(tiles[lo].at, size, true)] + tiles[hi..]
  {
    var t := tiles[i := tiles[i].(free := true)];
    var l := MergeLeft(t, i);
    lo := if i > 0 && tiles[i - 1].free then i - 1 else i;
    hi := if i + 1 < |tiles| && tiles[i + 1].free then i + 2 else i + 1;
    var size0 := tiles[i].size + if lo < i then tiles[lo].size else 0;
    size := size0 + if hi > i + 1 then tiles[i + 1].size else 0;
    assert l == tiles[..lo] + [Tile(tiles[lo].at, size0, true)] + tiles[i + 1..];
    if hi > i + 1 {
      assert l[lo + 1] == tiles[i + 1] && l[lo + 2..] == tiles[i + 2..];
    }
  }

  lemma OneForAll(mid: seq<Tile>, lo: nat, hi: nat, size: nat)
    requires Row(mid, lo, hi) && 1 <= |mid| <= 3
    requires size == mid[0].size + (if |mid| > 1 then mid[1].size else 0) + (if |mid| > 2 then mid[2].size else 0)
    ensures Row([Tile(mid[0].at, size, true)], lo, hi)
  {
    Placed(mid, lo, hi, 0);
    if |mid| > 1 {
      Placed(mid, lo, hi, 1);
    }
    if |mid| > 2 {
      Placed(mid, lo, hi, 2);
    }
    LastEnds(mid, lo, hi);
  }

  lemma {:induction false} LastEnds(tiles: seq<Tile>, lo: nat, hi: nat)
    requires Row(tiles, lo, hi) && tiles != []
    ensures tiles[|tiles| - 1].at + tiles[|tiles| - 1].size == hi
  {
    if |tiles| > 1 {
      LastEnds(tiles[1..], lo + tiles[0].size, hi);
    }
  }

  lemma ReleaseKeeps(tiles: seq<Tile>, total: nat, i: nat)
    requires WellTiled(tiles, total) && i < |tiles| && !tiles[i].free
    ensures WellTiled(Release(tiles, i), total)
  {
    hide Row, End, Coalesced, Release;
    var lo, hi, size := ReleaseIs(tiles, i);
    var a, mid, b := tiles[..lo], tiles[lo..hi], tiles[hi..];
    var one := Tile(tiles[lo].at, size, true);
    assert tiles == a + mid + b;
    if Row(mid, End(a, 0), End(mid, End(a, 0))) {
      OneForAll(mid, End(a, 0), End(mid, End(a, 0)), size);
    }
    SpliceRow(a, mid, b, [one], 0, total);
    CoalescedSplit(a + mid, b);
    CoalescedSplit(a, mid);
    CoalescedOne(one);
    CoalescedSplit(a, [one]);
    CoalescedSplit(a + [one], b);
  }

  lemma CoalescedOne(t: Tile)
    ensures Coalesced([t])
  {
  }

  lemma ReleaseWhole(a: seq<Tile>, t: Tile, b: seq<Tile>)
    requires a == [] || !a[|a| - 1].free
    requires b == [] || !b[0].free
    ensures Release(a + [t] + b, |a|) == a + [t.(free := true)] + b
  {
    hide Release;
    var r := a + [t] + b;
    var lo, hi, size := ReleaseIs(r, |a|);
    assert r[..|a|] == a && r[|a| + 1..] == b;
  }

  lemma ReleaseTail(a: seq<Tile>, left: Tile, t: Tile, b: seq<Tile>)
    requires left.free && (b == [] || !b[0].free)
    ensures Release(a + [left, t] + b, |a| + 1) == a + [Tile(left.at, left.size + t.size, true)] + b
  {
    hide Release;
    var r := a + [left, t] + b;
    var lo, hi, size := ReleaseIs(r, |a| + 1);
    assert r[..|a|] == a && r[|a| + 2..] == b;
  }

  /** free undoes malloc, whether the block was split off or taken whole. */
  lemma FreeUndoesMalloc(tiles: seq<Tile>, total: nat, n: nat) returns (k: nat)
    requires WellTiled(tiles, total) && FirstFit(tiles, n) < |tiles| && n >= SMALLEST
    ensures var r := Allocate(tiles, n);
            && k < |r| && !r[k].free && r[k].at == Carved(tiles[FirstFit(tiles, n)], n)
            && Release(r, k) == tiles
  {
    hide Row, Release;
    var i := FirstFit(tiles, n);
    var a, t, b := tiles[..i], tiles[i], tiles[i + 1..];
    assert tiles == a + [t] + b;
    assert a != [] ==> !a[|a| - 1].free;
    assert b != [] ==> !b[0].free;
    if t.size - n >= SMALLEST {
      k := i + 1;
      ReleaseTail(a, Tile(t.at, t.size - n, true), Tile(t.at + t.size - n, n, false), b);
    } else {
      k := i;
      ReleaseWhole(a, t.(free := false), b);
    }
  }

  /** malloc fails exactly when no free tile is big enough. */
  lemma FailsOnlyIfNoneFits(tiles: seq<Tile>, n: nat)
    ensures FirstFit(tiles, n) == |tiles| <==> forall k :: 0 <= k < |tiles| ==> !(tiles[k].free && tiles[k].size >= n)
  {
    if FirstFit(tiles, n) < |tiles| {
      assert tiles[FirstFit(tiles, n)].free;
    }
  }

  /** With nothing allocated the heap is one free block of its full size. */
  lemma NothingAllocated(tiles: seq<Tile>, total: nat)
    requires WellTiled(tiles, total) && forall k :: 0 <= k < |tiles| ==> tiles[k].free
    ensures tiles == [Tile(0, total, true)]
  {
    if |tiles| > 1 {
      var k := SomeAllocated(tiles);
      assert false;
    }
    LastEnds(tiles, 0, total);
  }

  lemma SomeAllocated(tiles: seq<Tile>) returns (k: nat)
    requires |tiles| > 1 && Coalesced(tiles)
    ensures k < |tiles| && !tiles[k].free
  {
    k := if tiles[0].free then 1 else 0;
  }
}
