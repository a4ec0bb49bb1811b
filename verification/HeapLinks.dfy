/** How the heap's memory represents a row of tiles: every tile starts with its size, and the
    free ones are linked in address order by their second word. */
module HeapLinks {
  import opened HeapTiles

  const NULL: int := -1

  /** The offset of the first free tile, or tail if there is none. */
  function FirstFree(tiles: seq<Tile>, tail: int): int {
    if tiles == [] then tail
    else if tiles[0].free then tiles[0].at
    else FirstFree(tiles[1..], tail)
  }

  /** The words of mem at the tiles' offsets; tail is what the last free tile links to. */
  ghost predicate Linked(mem: seq<int>, tiles: seq<Tile>, tail: int) {
    if tiles == [] then true
    else
      var t := tiles[0];
      && t.at + HEADER < |mem| && mem[t.at] == t.size
      && (t.free ==> mem[t.at + HEADER] == FirstFree(tiles[1..], tail))
      && Linked(mem, tiles[1..], tail)
  }

  lemma {:induction false} FirstFreeSplit(a: seq<Tile>, b: seq<Tile>, tail: int)
    ensures FirstFree(a + b, tail) == FirstFree(a, FirstFree(b, tail))
  {
    if a == [] {
      assert a + b == b;
    } else {
      assert (a + b)[1..] == a[1..] + b;
      FirstFreeSplit(a[1..], b, tail);
    }
  }

  lemma {:induction false} LinkedSplit(mem: seq<int>, a: seq<Tile>, b: seq<Tile>, tail: int)
    ensures Linked(mem, a + b, tail) <==> Linked(mem, a, FirstFree(b, tail)) && Linked(mem, b, tail)
  {
    if a == [] {
      assert a + b == b;
    } else {
      assert (a + b)[1..] == a[1..] + b;
      LinkedSplit(mem, a[1..], b, tail);
      FirstFreeSplit(a[1..], b, tail);
    }
  }

  lemma {:induction false} LinkedFrame(mem: seq<int>, mem': seq<int>, tiles: seq<Tile>, tail: int, lo: nat, hi: nat)
    requires Linked(mem, tiles, tail) && Row(tiles, lo, hi) && |mem| == |mem'|
    requires forall x :: lo <= x < hi && x < |mem| ==> mem'[x] == mem[x]
    ensures Linked(mem', tiles, tail)
  {
    if tiles != [] {
      RowEnds(tiles[1..], lo + tiles[0].size, hi);
      LinkedFrame(mem, mem', tiles[1..], tail, lo + tiles[0].size, hi);
    }
  }

  predicate AllUsed(tiles: seq<Tile>) {
    forall k :: 0 <= k < |tiles| ==> !tiles[k].free
  }

  lemma {:induction false} NoneFree(tiles: seq<Tile>, tail: int)
    requires AllUsed(tiles)
    ensures FirstFree(tiles, tail) == tail
  {
    if tiles != [] {
      NoneFree(tiles[1..], tail);
    }
  }

  lemma {:induction false} UsedLinks(mem: seq<int>, tiles: seq<Tile>, tail: int, tail': int)
    requires AllUsed(tiles) && Linked(mem, tiles, tail)
    ensures Linked(mem, tiles, tail')
  {
    if tiles != [] {
      UsedLinks(mem, tiles[1..], tail, tail');
    }
  }

  /** The index of the first free tile from i on, or the number of tiles. */
  function NextFree(tiles: seq<Tile>, i: nat): (j: nat)
    requires i <= |tiles|
    ensures i <= j <= |tiles|
    ensures j < |tiles| ==> tiles[j].free
    ensures forall k :: i <= k < j ==> !tiles[k].free
    decreases |tiles| - i
  {
    if i == |tiles| || tiles[i].free then i else NextFree(tiles, i + 1)
  }

  function AddressOf(tiles: seq<Tile>, j: nat): int {
    if j < |tiles| then tiles[j].at else NULL
  }

  lemma FirstFreeIs(tiles: seq<Tile>, i: nat)
    requires i <= |tiles|
    ensures FirstFree(tiles[i..], NULL) == AddressOf(tiles, NextFree(tiles, i))
  {
    hide NextFree;
    var j := NextFree(tiles, i);
    assert tiles[i..] == tiles[i..j] + tiles[j..];
    FirstFreeSplit(tiles[i..j], tiles[j..], NULL);
    NoneFree(tiles[i..j], FirstFree(tiles[j..], NULL));
  }

  lemma LinkAt(mem: seq<int>, tiles: seq<Tile>, i: nat)
    requires Linked(mem, tiles, NULL) && i < |tiles|
    ensures tiles[i].at + HEADER < |mem| && mem[tiles[i].at] == tiles[i].size
    ensures tiles[i].free ==> mem[tiles[i].at + HEADER] == AddressOf(tiles, NextFree(tiles, i + 1))
  {
    assert tiles == tiles[..i] + tiles[i..];
    LinkedSplit(mem, tiles[..i], tiles[i..], NULL);
    assert tiles[i..][1..] == tiles[i + 1..];
    FirstFreeIs(tiles, i + 1);
  }

  /** Replacing tiles in the middle, with writes inside them only. */
  lemma SpliceLinked(mem: seq<int>, mem': seq<int>, a: seq<Tile>, mid: seq<Tile>, m: seq<Tile>, b: seq<Tile>,
                     lo: nat, hi: nat)
    requires Row(a + mid + b, lo, hi) && Linked(mem, a + mid + b, NULL) && |mem'| == |mem|
    requires forall x :: 0 <= x < |mem| && !(End(a, lo) <= x < End(mid, End(a, lo))) ==> mem'[x] == mem[x]
    requires Linked(mem, mid, FirstFree(b, NULL)) ==> Linked(mem', m, FirstFree(b, NULL))
    requires a == [] || FirstFree(m, FirstFree(b, NULL)) == FirstFree(mid, FirstFree(b, NULL))
    ensures Linked(mem', a + m + b, NULL)
    ensures FirstFree(a + m + b, NULL) == FirstFree(a, FirstFree(m, FirstFree(b, NULL)))
    ensures FirstFree(a + mid + b, NULL) == FirstFree(a, FirstFree(mid, FirstFree(b, NULL)))
  {
    hide Row, End, Linked, FirstFree;
    var x, y := End(a, lo), End(a + mid, lo);
    RowSplit(a + mid, b, lo, hi);
    RowSplit(a, mid, lo, y);
    RowEnds(mid, x, y);
    RowEnds(a, lo, x);
    LinkedSplit(mem, a + mid, b, NULL);
    LinkedSplit(mem, a, mid, FirstFree(b, NULL));
    if a != [] {
      LinkedFrame(mem, mem', a, FirstFree(mid, FirstFree(b, NULL)), lo, x);
    } else {
      EmptyLinked(mem');
    }
    LinkedFrame(mem, mem', b, NULL, y, hi);
    LinkedSplit(mem', a, m, FirstFree(b, NULL));
    LinkedSplit(mem', a + m, b, NULL);
    FirstFreeSplit(a + m, b, NULL);
    FirstFreeSplit(a, m, FirstFree(b, NULL));
    FirstFreeSplit(a + mid, b, NULL);
    FirstFreeSplit(a, mid, FirstFree(b, NULL));
  }

  lemma EmptyFree(tail: int)
    ensures FirstFree([], tail) == tail
  {
  }

  lemma EmptyEnd(lo: nat)
    ensures End([], lo) == lo
  {
  }

  lemma EmptyLinked(mem: seq<int>)
    ensures forall tail :: Linked(mem, [], tail)
  {
  }

  /** Splitting tile i from its end. */
  lemma SplitLinked(mem: seq<int>, tiles: seq<Tile>, total: nat, i: nat, n: nat)
    requires Row(tiles, 0, total) && Linked(mem, tiles, NULL) && total <= |mem|
    requires i < |tiles| && tiles[i].free && tiles[i].size - n >= SMALLEST && n >= SMALLEST
    ensures var t := tiles[i];
            && t.at + t.size <= |mem|
            && var mem' := mem[t.at := t.size - n][t.at + t.size - n := n];
            var tiles' := tiles[..i] + Carve(t, n) + tiles[i + 1..];
            && Linked(mem', tiles', NULL) && FirstFree(tiles', NULL) == FirstFree(tiles, NULL)
  {
    hide Row, End, NextFree;
    var a, t, b := tiles[..i], tiles[i], tiles[i + 1..];
    Placed(tiles, 0, total, i);
    LinkAt(mem, tiles, i);
    FirstFreeIs(tiles, i + 1);
    assert tiles == a + [t] + b;
    StartsAt(a, [t], b, 0, total);
    var mem' := mem[t.at := t.size - n][t.at + t.size - n := n];
    CarveLinked(mem', t, n, FirstFree(b, NULL));
    assert [t][1..] == [];
    SpliceLinked(mem, mem', a, [t], Carve(t, n), b, 0, total);
  }

  lemma CarveLinked(mem: seq<int>, t: Tile, n: nat, tail: int)
    requires t.size - n >= SMALLEST && n >= SMALLEST && t.at + t.size <= |mem|
    requires mem[t.at] == t.size - n && mem[t.at + HEADER] == tail && mem[t.at + t.size - n] == n
    ensures Linked(mem, Carve(t, n), tail) && FirstFree(Carve(t, n), tail) == t.at
  {
    assert Carve(t, n)[1..] == [Tile(t.at + t.size - n, n, false)];
  }

  lemma StartsAt(a: seq<Tile>, mid: seq<Tile>, b: seq<Tile>, lo: nat, hi: nat)
    requires Row(a + mid + b, lo, hi) && mid != []
    ensures mid[0].at == End(a, lo) && mid[|mid| - 1].at + mid[|mid| - 1].size == End(mid, End(a, lo))
  {
    hide Row, End;
    RowSplit(a + mid, b, lo, hi);
    RowSplit(a, mid, lo, End(a + mid, lo));
    RowEnds(mid, End(a, lo), End(a + mid, lo));
    LastEnds(mid, End(a, lo), End(a + mid, lo));
  }

  /** Merging tile k with its right neighbour, both free. */
  lemma MergeLinked(mem: seq<int>, tiles: seq<Tile>, total: nat, k: nat)
    requires Row(tiles, 0, total) && Linked(mem, tiles, NULL) && total <= |mem|
    requires k + 1 < |tiles| && tiles[k].free && tiles[k + 1].free
    ensures var t, u := tiles[k], tiles[k + 1];
            && t.at + HEADER < |mem| && u.at + HEADER < |mem|
            && var mem' := mem[t.at := t.size + u.size][t.at + HEADER := mem[u.at + HEADER]];
            && Linked(mem', Merge(tiles, k), NULL) && FirstFree(Merge(tiles, k), NULL) == FirstFree(tiles, NULL)
            && Row(Merge(tiles, k), 0, total)
  {
    hide Row, End;
    var a, t, u, b := tiles[..k], tiles[k], tiles[k + 1], tiles[k + 2..];
    Placed(tiles, 0, total, k);
    Placed(tiles, 0, total, k + 1);
    LinkAt(mem, tiles, k);
    LinkAt(mem, tiles, k + 1);
    FirstFreeIs(tiles, k + 2);
    assert tiles == a + [t, u] + b;
    StartsAt(a, [t, u], b, 0, total);
    var one := t.(size := t.size + u.size);
    var mem' := mem[t.at := t.size + u.size][t.at + HEADER := mem[u.at + HEADER]];
    assert [t, u][1..] == [u] && [one][1..] == [];
    assert Linked(mem', [one], FirstFree(b, NULL));
    SpliceLinked(mem, mem', a, [t, u], [one], b, 0, total);
    if Row([t, u], End(a, 0), End([t, u], End(a, 0))) {
      OneForAll([t, u], End(a, 0), End([t, u], End(a, 0)), t.size + u.size);
    }
    SpliceRow(a, [t, u], b, [one], 0, total);
  }

  lemma ToggleRow(tiles: seq<Tile>, lo: nat, hi: nat, i: nat, free: bool)
    requires Row(tiles, lo, hi) && i < |tiles|
    ensures Row(tiles[i := tiles[i].(free := free)], lo, hi)
  {
    hide Row, End;
    var a, t, b := tiles[..i], tiles[i], tiles[i + 1..];
    assert tiles == a + [t] + b;
    assert tiles[i := t.(free := free)] == a + [t.(free := free)] + b;
    if Row([t], End(a, lo), End([t], End(a, lo))) {
      OneForAll([t], End(a, lo), End([t], End(a, lo)), t.size);
      OneRow(t.(free := free), t, End(a, lo), End([t], End(a, lo)));
    }
    SpliceRow(a, [t], b, [t.(free := free)], lo, hi);
  }

  lemma OneRow(t: Tile, u: Tile, lo: nat, hi: nat)
    requires Row([u], lo, hi) && t.at == u.at && t.size == u.size
    ensures Row([t], lo, hi)
  {
  }

  /** Used tiles u and then tile t, which becomes t'. */
  lemma RunLinked(mem: seq<int>, mem': seq<int>, u: seq<Tile>, t: Tile, t': Tile, tail: int, lo: nat, hi: nat)
    requires Row(u + [t], lo, hi) && Linked(mem, u + [t], tail) && |mem| == |mem'| && AllUsed(u)
    requires t' == t.(free := t'.free) && t.at + HEADER < |mem| && mem'[t.at] == t.size
    requires t'.free ==> mem'[t.at + HEADER] == tail
    requires forall x :: lo <= x < t.at && x < |mem| ==> mem'[x] == mem[x]
    ensures Linked(mem', u + [t'], tail)
    ensures FirstFree(u + [t'], tail) == if t'.free then t.at else tail
  {
    RowSplit(u, [t], lo, hi);
    LinkedSplit(mem, u, [t], tail);
    LinkedFrame(mem, mem', u, FirstFree([t], tail), lo, End(u, lo));
    UsedLinks(mem', u, FirstFree([t], tail), FirstFree([t'], tail));
    assert [t'][1..] == [];
    LinkedSplit(mem', u, [t'], tail);
    FirstFreeSplit(u, [t'], tail);
    NoneFree(u, FirstFree([t'], tail));
  }

  /** The free tile q, used tiles u and then tile t, which becomes t'. */
  lemma ChainLinked(mem: seq<int>, mem': seq<int>, q: Tile, u: seq<Tile>, t: Tile, t': Tile, tail: int, lo: nat, hi: nat)
    requires Row([q] + u + [t], lo, hi) && Linked(mem, [q] + u + [t], tail) && |mem| == |mem'| && AllUsed(u) && q.free
    requires t' == t.(free := t'.free) && t.at + HEADER < |mem| && mem'[t.at] == t.size
    requires q.at + HEADER < |mem| && mem'[q.at] == q.size && mem'[q.at + HEADER] == if t'.free then t.at else tail
    requires t'.free ==> mem'[t.at + HEADER] == tail
    requires forall x :: q.at + q.size <= x < t.at && x < |mem| ==> mem'[x] == mem[x]
    ensures Linked(mem', [q] + u + [t'], tail)
    ensures FirstFree([q] + u + [t'], tail) == q.at == FirstFree([q] + u + [t], tail)
  {
    assert ([q] + u + [t])[1..] == u + [t];
    assert ([q] + u + [t'])[1..] == u + [t'];
    RunLinked(mem, mem', u, t, t', tail, q.at + q.size, hi);
  }

  /** mem' is mem after the links of tile i and of the last free tile p before it, if any,
      were written anew, with tile i free or used. */
  ghost predicate Relinked(mem: seq<int>, mem': seq<int>, tiles: seq<Tile>, i: nat, p: int, free: bool)
    requires -1 <= p < i < |tiles|
  {
    var next := AddressOf(tiles, NextFree(tiles, i + 1));
    && |mem'| == |mem| && tiles[i].at + HEADER < |mem|
    && (free ==> mem'[tiles[i].at + HEADER] == next)
    && (p >= 0 ==> tiles[p].at + HEADER < |mem| && mem'[tiles[p].at + HEADER] == if free then tiles[i].at else next)
    && (forall x :: 0 <= x < |mem| && x != tiles[i].at + HEADER && (p >= 0 ==> x != tiles[p].at + HEADER) ==>
          mem'[x] == mem[x])
  }

  lemma ToggleFirst(mem: seq<int>, mem': seq<int>, tiles: seq<Tile>, total: nat, i: nat, free: bool)
    requires Row(tiles, 0, total) && Linked(mem, tiles, NULL) && total <= |mem|
    requires i < |tiles| && AllUsed(tiles[..i]) && Relinked(mem, mem', tiles, i, -1, free)
    ensures var tiles' := tiles[i := tiles[i].(free := free)];
            && Linked(mem', tiles', NULL)
            && FirstFree(tiles', NULL) == if free then tiles[i].at else AddressOf(tiles, NextFree(tiles, i + 1))
  {
    hide Row, End, Linked, FirstFree;
    FirstFreeIs(tiles, i + 1);
    LinkAt(mem, tiles, i);
    Placed(tiles, 0, total, i);
    var u, t, b := tiles[..i], tiles[i], tiles[i + 1..];
    var t', tail := t.(free := free), FirstFree(b, NULL);
    assert tiles == [] + (u + [t]) + b && tiles[i := t'] == [] + (u + [t']) + b;
    StartsAt([], u + [t], b, 0, total);
    RowSplit([], (u + [t]) + b, 0, total);
    RowSplit(u + [t], b, 0, total);
    LinkedSplit(mem, u + [t], b, NULL);
    assert [] + (u + [t]) + b == (u + [t]) + b;
    EmptyEnd(0);
    assert mem'[t.at] == mem[t.at];
    RunLinked(mem, mem', u, t, t', tail, 0, End(u + [t], 0));
    SpliceLinked(mem, mem', [], u + [t], u + [t'], b, 0, total);
    EmptyFree(FirstFree(u + [t'], tail));
  }

  lemma RelinkedWords(mem: seq<int>, mem': seq<int>, tiles: seq<Tile>, total: nat, i: nat, p: nat, free: bool)
    requires Row(tiles, 0, total) && Linked(mem, tiles, NULL) && total <= |mem|
    requires p < i < |tiles| && Relinked(mem, mem', tiles, i, p, free)
    ensures var q, t, next := tiles[p], tiles[i], AddressOf(tiles, NextFree(tiles, i + 1));
            && |mem'| == |mem| && q.at + q.size <= t.at && t.at + t.size <= total && q.at + HEADER < |mem|
            && t.at + HEADER < |mem| && mem'[t.at] == t.size && (free ==> mem'[t.at + HEADER] == next)
            && mem'[q.at] == q.size && mem'[q.at + HEADER] == (if free then t.at else next)
            && (forall x :: 0 <= x < |mem| && !(q.at <= x < t.at + t.size) ==> mem'[x] == mem[x])
            && (forall x :: q.at + q.size <= x < t.at ==> mem'[x] == mem[x])
  {
    hide Row, Linked, NextFree;
    LinkAt(mem, tiles, i);
    LinkAt(mem, tiles, p);
    Placed(tiles, 0, total, i);
    Placed(tiles, 0, total, p);
    InOrder(tiles, 0, total, p, i);
  }

  lemma ToggleAfter(mem: seq<int>, mem': seq<int>, tiles: seq<Tile>, total: nat, i: nat, p: nat, free: bool)
    requires Row(tiles, 0, total) && Linked(mem, tiles, NULL) && total <= |mem|
    requires p < i < |tiles| && tiles[p].free && AllUsed(tiles[p + 1..i]) && Relinked(mem, mem', tiles, i, p, free)
    ensures var tiles' := tiles[i := tiles[i].(free := free)];
            Linked(mem', tiles', NULL) && FirstFree(tiles', NULL) == FirstFree(tiles, NULL)
  {
    hide Row, End, Linked, FirstFree, NextFree, AllUsed, Relinked;
    FirstFreeIs(tiles, i + 1);
    RelinkedWords(mem, mem', tiles, total, i, p, free);
    var a, q, u, t, b := tiles[..p], tiles[p], tiles[p + 1..i], tiles[i], tiles[i + 1..];
    var t', tail := t.(free := free), FirstFree(b, NULL);
    var mid, m := [q] + u + [t], [q] + u + [t'];
    assert tiles == a + mid + b && tiles[i := t'] == a + m + b;
    StartsAt(a, mid, b, 0, total);
    MidLinked(mem, a, mid, b, 0, total);
    ChainLinked(mem, mem', q, u, t, t', tail, End(a, 0), End(a + mid, 0));
    SpliceLinked(mem, mem', a, mid, m, b, 0, total);
  }

  lemma MidLinked(mem: seq<int>, a: seq<Tile>, mid: seq<Tile>, b: seq<Tile>, lo: nat, hi: nat)
    requires Row(a + mid + b, lo, hi) && Linked(mem, a + mid + b, NULL)
    ensures Row(mid, End(a, lo), End(a + mid, lo)) && Linked(mem, mid, FirstFree(b, NULL))
  {
    hide Row, End, Linked, FirstFree;
    RowSplit(a + mid, b, lo, hi);
    RowSplit(a, mid, lo, End(a + mid, lo));
    LinkedSplit(mem, a + mid, b, NULL);
    LinkedSplit(mem, a, mid, FirstFree(b, NULL));
  }
}
