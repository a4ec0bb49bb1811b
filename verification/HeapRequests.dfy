/** The 32-bit arithmetic of malloc: what its rounding and its two size tests do with every
    request, and for exactly which requests they do what is meant. */
module HeapRequests {
  import opened HeapTiles

  const WORD: nat := 0x1_0000_0000
  const HALF: nat := 0x8000_0000

  /** The bytes malloc looks for: the request rounded up, and a header, as unsigned words. */
  function Needed32(size: nat): (n: nat)
    ensures n < WORD
  {
    var s := if size < MIN_ALLOC_SIZE then MIN_ALLOC_SIZE else size;
    var rounded := if s % 4 != 0 then (s - s % 4 + 4) % WORD else s;
    (rounded + HEADER) % WORD
  }

  /** A difference of unsigned words. */
  function Difference(a: nat, b: nat): (d: nat)
    requires a < WORD && b < WORD
    ensures d < WORD && (b + d) % WORD == a
  {
    if a >= b then a - b else a - b + WORD
  }

  /** The first test: the difference, read as a signed number, leaves room for a block. */
  predicate SplitTest(have: nat, n: nat)
    requires have < WORD && n < WORD
  {
    var d := Difference(have, n);
    (if d < HALF then d else d - WORD) >= SMALLEST
  }

  /** The first test says what it is meant to say for exactly these pairs. */
  lemma SizeTestExact(have: nat, n: nat)
    requires have < WORD && n < WORD
    ensures (SplitTest(have, n) <==> have - n >= SMALLEST)
            <==> have - n < HALF && (n - have <= HALF || n - have > WORD - SMALLEST)
  {
  }

  /** The block passes one of the two tests of the loop. */
  predicate Passes(have: nat, n: nat)
    requires n < WORD
  {
    have < HALF && (SplitTest(have, n) || have >= n)
  }

  /** The first free tile that passes, or the number of tiles. */
  function FirstTaken(tiles: seq<Tile>, n: nat): (i: nat)
    requires n < WORD
    ensures i <= |tiles|
    ensures i < |tiles| ==> tiles[i].free && Passes(tiles[i].size, n)
    ensures forall k :: 0 <= k < i ==> !(tiles[k].free && Passes(tiles[k].size, n))
  {
    if tiles == [] then 0
    else if tiles[0].free && Passes(tiles[0].size, n) then 0
    else 1 + FirstTaken(tiles[1..], n)
  }

  /** No request is so big, compared with a free block, that its difference looks positive. */
  predicate Sound(tiles: seq<Tile>, size: nat) {
    if size <= WORD - 8
    then forall k :: 0 <= k < |tiles| && tiles[k].free ==> Needed(size) - tiles[k].size <= HALF
    else forall k :: 0 <= k < |tiles| ==> !tiles[k].free
  }

  /** malloc takes the block that first fit would take, for as many bytes, and splits it when
      that leaves a block. */
  predicate ChoosesWell(tiles: seq<Tile>, size: nat) {
    var n, i := Needed32(size), FirstTaken(tiles, Needed32(size));
    && i == FirstFit(tiles, Needed(size))
    && (i < |tiles| && tiles[i].size < WORD ==>
          n == Needed(size) && (SplitTest(tiles[i].size, n) <==> tiles[i].size - n >= SMALLEST))
  }

  lemma Needed32Is(size: nat)
    requires 0 < size < WORD
    ensures size <= WORD - 8 ==> Needed32(size) == Needed(size) < WORD
    ensures size > WORD - 8 ==> Needed(size) >= WORD && Needed32(size) == if size <= WORD - 4 then 0 else 4
  {
  }

  lemma PassesExactly(size: nat, have: nat)
    requires 0 < size <= WORD - 8 && SMALLEST <= have < HALF
    ensures Needed32(size) == Needed(size) < WORD
    ensures Passes(have, Needed(size)) <==> have >= Needed(size) || Needed(size) - have > HALF
    ensures Needed(size) - have <= HALF ==> (SplitTest(have, Needed(size)) <==> have - Needed(size) >= SMALLEST)
    ensures Needed(size) - have > HALF ==> SplitTest(have, Needed(size))
  {
    hide Needed32, Needed;
    Needed32Is(size);
    NeededRounds(size);
  }

  lemma NeededRounds(size: nat)
    requires size <= WORD - 8
    ensures Needed(size) <= WORD - 4
  {
  }

  ghost predicate SizesFit(tiles: seq<Tile>) {
    forall k :: 0 <= k < |tiles| ==> SMALLEST <= tiles[k].size < HALF && tiles[k].size % 4 == 0
  }

  lemma SizesOf(tiles: seq<Tile>, total: nat)
    requires Row(tiles, 0, total) && total < HALF
    ensures SizesFit(tiles)
  {
    forall k | 0 <= k < |tiles| ensures SMALLEST <= tiles[k].size < HALF && tiles[k].size % 4 == 0 {
      Placed(tiles, 0, total, k);
    }
  }

  lemma SoundChoice(tiles: seq<Tile>, size: nat)
    requires SizesFit(tiles) && 0 < size < WORD && Sound(tiles, size)
    ensures ChoosesWell(tiles, size)
  {
    hide Needed32, Needed, SplitTest, Passes;
    var i, j := FirstTaken(tiles, Needed32(size)), FirstFit(tiles, Needed(size));
    Needed32Is(size);
    if size <= WORD - 8 {
      if i < |tiles| {
        PassesExactly(size, tiles[i].size);
      }
      if j < |tiles| {
        PassesExactly(size, tiles[j].size);
      }
    }
  }

  lemma WideRequest(tiles: seq<Tile>, size: nat, k: nat)
    requires SizesFit(tiles) && 0 < size <= WORD - 8 && k < |tiles| && tiles[k].free
    requires Needed(size) - tiles[k].size > HALF
    ensures FirstFit(tiles, Needed(size)) == |tiles|
    ensures var i := FirstTaken(tiles, Needed32(size)); i < |tiles| && SplitTest(tiles[i].size, Needed32(size))
  {
    hide Needed32, Needed, SplitTest, Passes, FirstTaken, FirstFit;
    var i := FirstTaken(tiles, Needed32(size));
    PassesExactly(size, tiles[k].size);
    PassesExactly(size, tiles[i].size);
    assert Passes(tiles[i].size, Needed(size));
  }

  lemma WrappedRequest(tiles: seq<Tile>, size: nat, k: nat)
    requires SizesFit(tiles) && WORD - 8 < size < WORD && k < |tiles| && tiles[k].free
    ensures FirstFit(tiles, Needed(size)) == |tiles|
    ensures var i := FirstTaken(tiles, Needed32(size));
            && i < |tiles|
            && (!SplitTest(tiles[i].size, Needed32(size)) ==> tiles[i].size == SMALLEST && FirstFit(tiles, SMALLEST) == i)
  {
    hide Needed32, Needed, FirstTaken, FirstFit;
    Needed32Is(size);
    assert Passes(tiles[k].size, Needed32(size));
    var i, j := FirstTaken(tiles, Needed32(size)), FirstFit(tiles, SMALLEST);
    assert forall l :: 0 <= l < |tiles| && tiles[l].free ==> Passes(tiles[l].size, Needed32(size));
    assert i == j;
  }

  /** An unsound request is granted although no block is big enough for it. */
  lemma UnsoundChoice(tiles: seq<Tile>, size: nat)
    requires SizesFit(tiles) && 0 < size < WORD && !Sound(tiles, size)
    ensures FirstFit(tiles, Needed(size)) == |tiles|
    ensures var i := FirstTaken(tiles, Needed32(size));
            && i < |tiles|
            && (!SplitTest(tiles[i].size, Needed32(size)) ==> tiles[i].size == SMALLEST && FirstFit(tiles, SMALLEST) == i)
  {
    hide Needed32, Needed, SplitTest, FirstTaken, FirstFit;
    if size <= WORD - 8 {
      var k :| 0 <= k < |tiles| && tiles[k].free && Needed(size) - tiles[k].size > HALF;
      WideRequest(tiles, size, k);
    } else {
      var k :| 0 <= k < |tiles| && tiles[k].free;
      WrappedRequest(tiles, size, k);
    }
  }

  /** malloc chooses well for exactly the sound requests; for a heap of less than 2^31 bytes
      all requests up to 2^31 + 8 bytes are. */
  lemma ChoosesWellExactly(tiles: seq<Tile>, total: nat, size: nat)
    requires WellTiled(tiles, total) && total < HALF && 0 < size < WORD
    ensures ChoosesWell(tiles, size) <==> Sound(tiles, size)
    ensures size <= HALF + 8 ==> Sound(tiles, size)
  {
    hide Needed32, SplitTest, Passes, ChoosesWell, Row, Coalesced;
    SizesOf(tiles, total);
    if Sound(tiles, size) {
      SoundChoice(tiles, size);
    } else {
      UnsoundChoice(tiles, size);
      WrongChoice(tiles, size);
    }
  }

  lemma WrongChoice(tiles: seq<Tile>, size: nat)
    requires FirstTaken(tiles, Needed32(size)) < |tiles| == FirstFit(tiles, Needed(size))
    ensures !ChoosesWell(tiles, size)
  {
  }
}
