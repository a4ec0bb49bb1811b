/** lib/bitmap.c: bitmaps kept as big-endian 32-bit words in byte memory. */
module Bitmap {
  import opened Words
  import opened Memory

  /** Byte memory s is made of whole words and has room for l bits. */
  predicate Covers(s: seq<Byte>, l: int) {
    |s| % 4 == 0 && l <= 8 * |s|
  }

  /** Bit k, found as C finds it: bit k % 32 of word k / 32. */
  predicate BitAt(s: seq<Byte>, k: nat)
    requires Covers(s, k + 1)
  {
    Bit(WordAt(s, k / 32), k % 32)
  }

  function BitsUpTo(s: seq<Byte>, n: nat): (b: seq<bool>)
    requires Covers(s, n)
    ensures |b| == n
  {
    if n == 0 then [] else BitsUpTo(s, n - 1) + [BitAt(s, n - 1)]
  }

  /** The abstract value of a bitmap: all its bits in order. */
  function Bits(s: seq<Byte>): (b: seq<bool>)
    requires Covers(s, 0)
    ensures |b| == 8 * |s|
  {
    BitsUpTo(s, 8 * |s|)
  }

  lemma {:induction false} BitsUpToAt(s: seq<Byte>, n: nat, k: nat)
    requires Covers(s, n) && k < n
    ensures BitsUpTo(s, n)[k] == BitAt(s, k)
  {
    if k < n - 1 {
      BitsUpToAt(s, n - 1, k);
    }
  }

  lemma BitsAt(s: seq<Byte>, k: nat)
    requires Covers(s, k + 1)
    ensures Bits(s)[k] == BitAt(s, k)
  {
    BitsUpToAt(s, 8 * |s|, k);
  }

  /** The bits of the i-th word are bits 32 i to 32 i + 31 of the bitmap. */
  lemma WordBits(s: seq<Byte>, i: nat, j: nat)
    requires Covers(s, 32 * i + 32) && j < 32
    ensures Bits(s)[32 * i + j] == Bit(WordAt(s, i), j)
  {
    BitsAt(s, 32 * i + j);
    assert (32 * i + j) / 32 == i && (32 * i + j) % 32 == j;
  }

  /** Where a bit is in memory: each group of four bytes holds 32 bits, the lowest eight of them
      in the last byte. */
  lemma BitInByte(s: seq<Byte>, i: nat, j: nat)
    requires Covers(s, 32 * i + 32) && j < 32
    ensures Bits(s)[32 * i + j] <==> Bit(s[4 * i + 3 - j / 8], j % 8)
  {
    hide Bit, Bits, WordAt;
    WordBits(s, i, j);
    BitOfByte(s, i, j);
  }

  /** The memory after writing bit k. */
  function SetBit(s: seq<Byte>, k: nat, value: bool): (r: seq<Byte>)
    requires Covers(s, k + 1)
    ensures |r| == |s|
  {
    StoreWord(s, k / 32, WithBit(WordAt(s, k / 32), k % 32, value))
  }

  lemma WordOfSetBit(s: seq<Byte>, k: nat, value: bool, i: nat, j: nat)
    requires Covers(s, k + 1) && Covers(s, 32 * i + 32) && j < 32
    ensures Bit(WordAt(SetBit(s, k, value), i), j)
         == if 32 * i + j == k then value else Bit(WordAt(s, i), j)
  {
    StoredWord(s, k / 32, WithBit(WordAt(s, k / 32), k % 32, value));
    if i == k / 32 {
      SetBitOnly(WordAt(s, i), k % 32, value, j);
    }
  }

  /** The words of r are those of s but for one bit. */
  ghost predicate WordsDifferAt(s: seq<Byte>, r: seq<Byte>, k: nat, value: bool)
    requires Covers(s, 0) && |r| == |s|
  {
    forall i: nat, j: nat :: Covers(s, 32 * i + 32) && j < 32 ==>
      Bit(WordAt(r, i), j) == if 32 * i + j == k then value else Bit(WordAt(s, i), j)
  }

  lemma BitFromWords(s: seq<Byte>, r: seq<Byte>, k: nat, value: bool, n: nat)
    requires Covers(s, n + 1) && |r| == |s| && WordsDifferAt(s, r, k, value)
    ensures Bits(r)[n] == if n == k then value else Bits(s)[n]
  {
    BitsAt(s, n);
    BitsAt(r, n);
    assert Bit(WordAt(r, n / 32), n % 32) == if 32 * (n / 32) + n % 32 == k then value else Bit(WordAt(s, n / 32), n % 32);
  }

  /** Writing a bit changes that bit and no other. */
  lemma SetBitExact(s: seq<Byte>, k: nat, value: bool)
    requires Covers(s, k + 1)
    ensures Bits(SetBit(s, k, value)) == Bits(s)[k := value]
  {
    var r := SetBit(s, k, value);
    forall i: nat, j: nat | Covers(s, 32 * i + 32) && j < 32
      ensures Bit(WordAt(r, i), j) == if 32 * i + j == k then value else Bit(WordAt(s, i), j)
    {
      WordOfSetBit(s, k, value, i, j);
    }
    AllBitsFromWords(s, r, k, value);
  }

  lemma AllBitsFromWords(s: seq<Byte>, r: seq<Byte>, k: nat, value: bool)
    requires Covers(s, k + 1) && |r| == |s| && WordsDifferAt(s, r, k, value)
    ensures Bits(r) == Bits(s)[k := value]
  {
    forall n | 0 <= n < 8 * |s| ensures Bits(r)[n] == Bits(s)[k := value][n] {
      BitFromWords(s, r, k, value, n);
    }
  }

  predicate Full(b: seq<bool>, l: nat)
    requires l <= |b|
  {
    forall k :: 0 <= k < l ==> b[k]
  }

  /** What "find the first zero and set it" means for a search of the first l bits:
      r is the least zero bit, which alone is set in b', or -1 with nothing changed
      when all l bits are set. */
  ghost predicate FindsFirstZero(b: seq<bool>, l: nat, r: int, b': seq<bool>)
    requires l <= |b|
  {
    if r < 0 then r == -1 && Full(b, l) && b' == b
    else r < l && !b[r] && Full(b, r) && b' == b[r := true]
  }

  /** The search has one possible outcome. */
  lemma FindsFirstZeroIsUnique(b: seq<bool>, l: nat, r1: int, b1: seq<bool>, r2: int, b2: seq<bool>)
    requires l <= |b|
    requires FindsFirstZero(b, l, r1, b1) && FindsFirstZero(b, l, r2, b2)
    ensures r1 == r2 && b1 == b2
  {
    assert 0 <= r1 < l ==> !b[r1];
    assert 0 <= r2 < l ==> !b[r2];
  }

  /** Equal bits are equal words. */
  lemma {:induction false} SameBitsSameWord(v: nat, w: nat, n: nat)
    requires v < Pow2(n) && w < Pow2(n)
    requires forall j: nat :: j < n ==> Bit(v, j) == Bit(w, j)
    ensures v == w
  {
    if n > 0 {
      assert Bit(v, 0) == Bit(w, 0);
      forall j: nat | j < n - 1 ensures Bit(v / 2, j) == Bit(w / 2, j) {
        assert Bit(v, j + 1) == Bit(w, j + 1);
      }
      SameBitsSameWord(v / 2, w / 2, n - 1);
    }
  }

  lemma BitsDetermineWord(s: seq<Byte>, t: seq<Byte>, i: nat)
    requires Covers(s, 32 * i + 32) && |t| == |s| && Bits(s) == Bits(t)
    ensures WordAt(s, i) == WordAt(t, i)
  {
    forall j: nat | j < 32 ensures Bit(WordAt(s, i), j) == Bit(WordAt(t, i), j) {
      WordBits(s, i, j);
      WordBits(t, i, j);
    }
    WordRange();
    SameBitsSameWord(WordAt(s, i), WordAt(t, i), 32);
  }

  /** The bits of a bitmap determine its bytes. */
  lemma BitsDetermineBytes(s: seq<Byte>, t: seq<Byte>)
    requires Covers(s, 0) && |t| == |s| && Bits(s) == Bits(t)
    ensures s == t
  {
    forall k | 0 <= k < |s| ensures s[k] == t[k] {
      var i := k / 4;
      BitsDetermineWord(s, t, i);
      WordDeterminesBytes(s, t, i);
      assert k == 4 * i || k == 4 * i + 1 || k == 4 * i + 2 || k == 4 * i + 3;
    }
  }

  lemma WordDeterminesBytes(s: seq<Byte>, t: seq<Byte>, i: nat)
    requires 4 * i + 4 <= |s| == |t| && WordAt(s, i) == WordAt(t, i)
    ensures s[4 * i] == t[4 * i] && s[4 * i + 1] == t[4 * i + 1]
    ensures s[4 * i + 2] == t[4 * i + 2] && s[4 * i + 3] == t[4 * i + 3]
  {
    JoinSplit(s[4 * i], s[4 * i + 1], s[4 * i + 2], s[4 * i + 3]);
    JoinSplit(t[4 * i], t[4 * i + 1], t[4 * i + 2], t[4 * i + 3]);
  }

  /** The number of zero bits among the first l. */
  function FreeCount(b: seq<bool>, l: nat): (n: nat)
    requires l <= |b|
    ensures n <= l
  {
    if l == 0 then 0 else FreeCount(b, l - 1) + BitValue(!b[l - 1])
  }

  /** Setting a zero bit takes exactly one from the count, clearing a one bit adds it back. */
  lemma {:induction false} FreeCountAfterSet(b: seq<bool>, l: nat, k: nat, value: bool)
    requires l <= |b| && k < |b|
    ensures FreeCount(b[k := value], l)
         == if k < l then FreeCount(b, l) + BitValue(b[k]) - BitValue(value) else FreeCount(b, l)
  {
    if l > 0 {
      FreeCountAfterSet(b, l - 1, k, value);
    }
  }

  lemma {:induction false} FreeCountZero(b: seq<bool>, l: nat)
    requires l <= |b|
    ensures FreeCount(b, l) == 0 <==> Full(b, l)
  {
    if l > 0 {
      FreeCountZero(b, l - 1);
    }
  }

  lemma {:induction false} FreeCountAll(b: seq<bool>, l: nat)
    requires l <= |b| && forall k :: 0 <= k < l ==> !b[k]
    ensures FreeCount(b, l) == l
  {
    if l > 0 {
      FreeCountAll(b, l - 1);
    }
  }

  function SizeOf(numBits: nat): (r: nat)
    ensures r % 4 == 0 && numBits <= 8 * r < numBits + 32
  {
    (numBits + 31) / 32 * 4
  }

  lemma ZeroWordAt(s: seq<Byte>, i: nat)
    requires |s| % 4 == 0 && 4 * i + 4 <= |s|
    requires forall k :: 4 * i <= k < 4 * i + 4 ==> s[k] == 0
    ensures WordAt(s, i) == 0
  {
  }

  lemma ZeroBytes(s: seq<Byte>, l: nat)
    requires Covers(s, l)
    requires forall k :: 0 <= k < SizeOf(l) ==> s[k] == 0
    ensures forall k :: 0 <= k < l ==> !Bits(s)[k]
  {
    hide Bits, WordAt;
    forall k | 0 <= k < l ensures !Bits(s)[k] {
      var i, j := k / 32, k % 32;
      assert k == 32 * i + j && 4 * i + 4 <= SizeOf(l);
      ZeroWordAt(s, i);
      WordBits(s, i, j);
      ZeroBit(j);
    }
  }

  method Init(bitmap: array<Byte>, size: nat)
    requires Covers(bitmap[..], size)
    modifies bitmap
    ensures forall k :: 0 <= k < size ==> !Bits(bitmap[..])[k]
    ensures bitmap[SizeOf(size)..] == old(bitmap[SizeOf(size)..])
  {
    for i := 0 to (size + 31) / 32
      invariant forall k :: 0 <= k < 4 * i ==> bitmap[k] == 0
      invariant forall k :: 4 * i <= k < bitmap.Length ==> bitmap[k] == old(bitmap[k])
    {
      bitmap[4 * i], bitmap[4 * i + 1], bitmap[4 * i + 2], bitmap[4 * i + 3] := 0, 0, 0, 0;
    }
    ZeroBytes(bitmap[..], size);
  }

  method Get(bitmap: array<Byte>, pos: nat) returns (v: int)
    requires Covers(bitmap[..], pos + 1)
    ensures v == BitValue(Bits(bitmap[..])[pos])
  {
    var i := pos / 32;
    var j := pos % 32;
    v := BitValue(Bit(WordAt(bitmap[..], i), j));
    WordBits(bitmap[..], i, j);
  }

  /** Storing the changed word back writes the bit. */
  lemma StoredBit(s: seq<Byte>, r: seq<Byte>, k: nat, value: bool)
    requires Covers(s, k + 1) && |r| == |s|
    requires var i := k / 32; r[4 * i..4 * i + 4] == Bytes(WithBit(WordAt(s, i), k % 32, value))
    requires forall j :: 0 <= j < |s| && j / 4 != k / 32 ==> r[j] == s[j]
    ensures Bits(r) == Bits(s)[k := value]
  {
    var i := k / 32;
    var t := SetBit(s, k, value);
    assert t[4 * i..4 * i + 4] == r[4 * i..4 * i + 4];
    forall j | 0 <= j < |s| ensures r[j] == t[j] {
      if j / 4 == i {
        assert r[j] == r[4 * i..4 * i + 4][j - 4 * i];
        assert t[j] == t[4 * i..4 * i + 4][j - 4 * i];
      }
    }
    assert r == t;
    SetBitExact(s, k, value);
  }

  method Set(bitmap: array<Byte>, pos: nat, value: int)
    requires Covers(bitmap[..], pos + 1)
    requires value == 0 || value == 1
    modifies bitmap
    ensures Bits(bitmap[..]) == Bits(old(bitmap[..]))[pos := value == 1]
  {
    var i := pos / 32;
    var j := pos % 32;
    var w := WithBit(WordAt(bitmap[..], i), j, value == 1);
    ghost var before := bitmap[..];
    StoreWord32(bitmap, i, w);
    StoredBit(before, bitmap[..], pos, value == 1);
  }

  lemma FullUpToWord(s: seq<Byte>, i: nat)
    requires Covers(s, 32 * i + 32) && Full(Bits(s), 32 * i)
    ensures WordAt(s, i) == 0xffff_ffff ==> Full(Bits(s), 32 * i + 32)
    ensures WordAt(s, i) != 0xffff_ffff ==> !Full(Bits(s), 32 * i + 32)
  {
    var w := WordAt(s, i);
    FullWord(w);
    if w == 0xffff_ffff {
      forall k | 32 * i <= k < 32 * i + 32 ensures Bits(s)[k] {
        WordBits(s, i, k - 32 * i);
      }
    } else {
      var j: nat :| j < 32 && !Bit(w, j);
      WordBits(s, i, j);
    }
  }

  /** The bit-by-bit search of one word that has a zero bit, which starts at basepos. */
  method FindInWord(bitmap: array<Byte>, basepos: nat, l: nat) returns (r: int)
    requires Covers(bitmap[..], l) && Covers(bitmap[..], basepos + 32)
    requires Full(Bits(bitmap[..]), basepos) && !Full(Bits(bitmap[..]), basepos + 32)
    modifies bitmap
    ensures FindsFirstZero(Bits(old(bitmap[..])), l, r, Bits(bitmap[..]))
  {
    for j := 0 to 32
      invariant bitmap[..] == old(bitmap[..]) && Full(Bits(bitmap[..]), basepos + j)
    {
      var v := Get(bitmap, basepos + j);
      if v == 0 {
        if basepos + j >= l {
          return -1;
        }
        Set(bitmap, basepos + j, 1);
        return basepos + j;
      }
    }
    assert false;
  }

  /** Skips words that are 0xffffffff, then searches the first other word bit by bit. */
  method FindAndSet(bitmap: array<Byte>, l: nat) returns (r: int)
    requires Covers(bitmap[..], l)
    modifies bitmap
    ensures FindsFirstZero(Bits(old(bitmap[..])), l, r, Bits(bitmap[..]))
  {
    for i := 0 to SizeOf(l) / 4
      invariant bitmap[..] == old(bitmap[..]) && Full(Bits(bitmap[..]), 32 * i)
    {
      FullUpToWord(bitmap[..], i);
      if WordAt(bitmap[..], i) != 0xffff_ffff {
        r := FindInWord(bitmap, i * 32, l);
        return;
      }
    }
    return -1;
  }
}
